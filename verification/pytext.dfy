/** The handful of Python built-ins on strings and lists that the card code
    relies on: slicing, `rsplit`, `split`, `' '.join` and `str(int)`. */
module PyText {
  import opened Common

  /** The end index Python uses for `s[:k]` on a list of length `n`: a
      negative `k` counts from the end, and the result is clamped to `0..n`. */
  function SliceEnd(n: nat, k: int): (e: nat)
    ensures e <= n
    ensures 0 <= k ==> e == Min(k, n)
    ensures k < 0 ==> e == Max(0, n + k)
  {
    if k >= 0 then (if k <= n then k else n)
    else if n + k >= 0 then n + k else 0
  }

  /** Python `s[:k]`. */
  function Take<T>(s: seq<T>, k: int): (r: seq<T>)
    ensures r <= s
    ensures 0 <= k ==> |r| == Min(k, |s|)
    ensures k < 0 ==> |r| == Max(0, |s| + k)
  {
    s[..SliceEnd(|s|, k)]
  }

  /** Python `s[a:b]` for non-negative bounds: both are clamped to `|s|`, and
      an empty slice results when `b <= a`. */
  function Slice<T>(s: seq<T>, a: nat, b: nat): (r: seq<T>)
    ensures |r| == Max(0, Min(b, |s|) - Min(a, |s|))
    ensures forall i :: 0 <= i < |r| ==> r[i] == s[a + i]
  {
    var lo := Min(a, |s|);
    var hi := Min(b, |s|);
    if lo <= hi then s[lo..hi] else []
  }

  /** The number of occurrences of `c` in `s`. */
  function Count(s: string, c: char): (n: nat)
    ensures n <= |s|
    ensures n == 0 <==> c !in s
  {
    if s == [] then 0 else (if s[0] == c then 1 else 0) + Count(s[1..], c)
  }

  lemma {:induction false} CountAppend(a: string, b: string, c: char)
    ensures Count(a + b, c) == Count(a, c) + Count(b, c)
  {
    if a == [] {
      assert a + b == b;
    } else {
      assert (a + b)[1..] == a[1..] + b;
      CountAppend(a[1..], b, c);
    }
  }

  /** The index of the first `c` in `s`, if any. */
  function IndexOf(s: string, c: char): (r: Option<nat>)
    ensures r.None? <==> c !in s
    ensures r.Some? ==> r.value < |s| && s[r.value] == c && c !in s[..r.value]
  {
    if s == [] then None
    else if s[0] == c then Some(0)
    else match IndexOf(s[1..], c)
      case None => None
      case Some(i) =>
        assert s[..i + 1] == [s[0]] + s[1..][..i];
        Some(i + 1)
  }

  /** The index of the last `c` in `s`, if any. */
  function LastIndexOf(s: string, c: char): (r: Option<nat>)
    ensures r.None? <==> c !in s
    ensures r.Some? ==> r.value < |s| && s[r.value] == c && c !in s[r.value + 1..]
  {
    if s == [] then None
    else if s[|s| - 1] == c then Some(|s| - 1)
    else
      var init := s[..|s| - 1];
      assert s == init + [s[|s| - 1]];
      match LastIndexOf(init, c)
      case None => None
      case Some(i) =>
        assert s[i + 1..] == init[i + 1..] + [s[|s| - 1]];
        Some(i)
  }

  /** `tid, qid = s.rsplit('.', 1)`: the split at the last dot, or `None` when
      the unpacking raises because `s` has no dot. */
  function RSplitDot(s: string): (r: Option<(string, string)>)
    ensures r.None? <==> '.' !in s
    ensures r.Some? ==> s == r.value.0 + "." + r.value.1 && '.' !in r.value.1
  {
    match LastIndexOf(s, '.')
    case None => None
    case Some(i) =>
      assert s == s[..i] + "." + s[i + 1..];
      Some((s[..i], s[i + 1..]))
  }

  /** `rsplit` undoes the join of a prefix and a dot-free suffix. */
  lemma RSplitDotOfJoin(t: string, q: string)
    requires '.' !in q
    ensures RSplitDot(t + "." + q) == Some((t, q))
  {
    var s := t + "." + q;
    var r := RSplitDot(s);
    assert s[|t|] == '.';
    var i := LastIndexOf(s, '.').value;
    assert forall k :: |t| < k < |s| ==> s[k] == q[k - |t| - 1];
    assert i == |t|;
    assert s[..|t|] == t;
    assert s[|t| + 1..] == q;
  }

  /** `a, b = s.split(c)`: the two pieces when `s` holds exactly one `c`. */
  function SplitPair(s: string, c: char): (r: Option<(string, string)>)
    ensures r.Some? <==> Count(s, c) == 1
    ensures r.Some? ==> s == r.value.0 + [c] + r.value.1 && c !in r.value.0 && c !in r.value.1
  {
    match IndexOf(s, c)
    case None => None
    case Some(i) =>
      assert s == s[..i] + [c] + s[i + 1..];
      CountAppend(s[..i] + [c], s[i + 1..], c);
      CountAppend(s[..i], [c], c);
      assert Count([c], c) == 1;
      if Count(s[i + 1..], c) == 0 then Some((s[..i], s[i + 1..])) else None
  }

  /** `s.split(c)`, keeping only the first two pieces as `(url.split('?') +
      [''])[:2]` does: everything from a second `c` on is dropped. */
  function SplitFirstTwo(s: string, c: char): (r: (string, string))
    ensures c !in r.0 && c !in r.1
    ensures c !in s ==> r == (s, "")
    ensures c in s ==> r.0 + [c] + r.1 <= s
    ensures c in s ==> r.0 + [c] + r.1 == s || r.0 + [c] + r.1 + [c] <= s
    ensures c in s && Count(s, c) == 1 ==> s == r.0 + [c] + r.1
  {
    match IndexOf(s, c)
    case None => (s, "")
    case Some(i) =>
      var rest := s[i + 1..];
      assert s == s[..i] + [c] + rest;
      match IndexOf(rest, c)
      case None => (s[..i], rest)
      case Some(j) =>
        SecondSeparator(s, c, i, j);
        (s[..i], rest[..j])
  }

  /** With separators at `i` and at `i + 1 + j`, the text up to the second
      one is a prefix of `s`, and `s` holds at least two separators. */
  lemma SecondSeparator(s: string, c: char, i: nat, j: nat)
    requires i < |s| && s[i] == c && j < |s| - i - 1 && s[i + 1..][j] == c
    ensures s[..i] + [c] + s[i + 1..][..j] + [c] <= s
    ensures Count(s, c) > 1
  {
    var rest := s[i + 1..];
    var p := s[..i] + [c] + rest[..j] + [c];
    assert |p| == i + j + 2;
    forall k | 0 <= k < |p| ensures p[k] == s[k] {
      if k > i && k < i + 1 + j {
        assert p[k] == rest[k - i - 1];
      }
    }
    assert p == s[..i + j + 2];
    TwoSeparatorsCount(s, c, i, rest);
  }

  lemma TwoSeparatorsCount(s: string, c: char, i: nat, rest: string)
    requires i < |s| && s[i] == c && rest == s[i + 1..] && c in rest
    ensures Count(s, c) > 1
  {
    assert s == s[..i] + [c] + rest;
    CountAppend(s[..i] + [c], rest, c);
    CountAppend(s[..i], [c], c);
    assert Count([c], c) == 1;
  }

  /** `sep.join(parts)`. */
  function Join(sep: string, parts: seq<string>): (r: string)
    ensures parts == [] ==> r == ""
    ensures |parts| == 1 ==> r == parts[0]
  {
    if parts == [] then ""
    else if |parts| == 1 then parts[0]
    else Join(sep, parts[..|parts| - 1]) + sep + parts[|parts| - 1]
  }

  lemma {:induction false} JoinAppend(sep: string, a: seq<string>, b: seq<string>)
    requires a != [] && b != []
    ensures Join(sep, a + b) == Join(sep, a) + sep + Join(sep, b)
  {
    var ab := a + b;
    if |b| == 1 {
      assert ab[..|ab| - 1] == a && ab[|ab| - 1] == b[0];
    } else {
      var b', last := b[..|b| - 1], b[|b| - 1];
      assert ab[..|ab| - 1] == a + b' && ab[|ab| - 1] == last;
      JoinAppend(sep, a, b');
      var ja, jb := Join(sep, a), Join(sep, b');
      assert Join(sep, b) == jb + sep + last;
      assert Join(sep, ab) == Join(sep, a + b') + sep + last;
      assert ja + sep + jb + sep + last == ja + sep + (jb + sep + last);
    }
  }

  function DigitChar(d: nat): (c: char)
    requires d < 10
  {
    "0123456789"[d]
  }

  function DigitValue(c: char): nat
  {
    if '0' <= c <= '9' then (c as int) - ('0' as int) else 0
  }

  /** The decimal digits of `n` without leading zeros (`"0"` for zero). */
  function NatToDecimal(n: nat): (s: string)
    ensures |s| >= 1
    ensures forall i :: 0 <= i < |s| ==> '0' <= s[i] <= '9'
    ensures |s| > 1 ==> s[0] != '0'
    decreases n
  {
    if n < 10 then [DigitChar(n)] else NatToDecimal(n / 10) + [DigitChar(n % 10)]
  }

  /** The number a string of decimal digits denotes. */
  function DecimalValue(s: string): nat
  {
    if s == [] then 0 else 10 * DecimalValue(s[..|s| - 1]) + DigitValue(s[|s| - 1])
  }

  lemma {:induction false} DecimalRoundTrip(n: nat)
    ensures DecimalValue(NatToDecimal(n)) == n
    decreases n
  {
    var s := NatToDecimal(n);
    if n < 10 {
      DigitRoundTrip(n);
      assert s[..0] == [];
    } else {
      var q, d := n / 10, n % 10;
      assert s == NatToDecimal(q) + [DigitChar(d)];
      assert s[..|s| - 1] == NatToDecimal(q);
      DecimalRoundTrip(q);
      DigitRoundTrip(d);
      assert DecimalValue(s) == 10 * q + d;
    }
  }

  lemma DigitRoundTrip(d: nat)
    requires d < 10
    ensures DigitValue(DigitChar(d)) == d
  {
  }

  /** Python `str(n)` for an integer. */
  function IntToString(n: int): (s: string)
    ensures |s| >= 1
    ensures n < 0 <==> s[0] == '-'
  {
    if n < 0 then "-" + NatToDecimal(-n) else NatToDecimal(n)
  }

  /** `split` undoes the join of two pieces free of the separator. */
  lemma SplitPairOfJoin(a: string, b: string, c: char)
    requires c !in a && c !in b
    ensures SplitPair(a + [c] + b, c) == Some((a, b))
  {
    var s := a + [c] + b;
    CountAppend(a + [c], b, c);
    CountAppend(a, [c], c);
    assert Count([c], c) == 1;
    var i := IndexOf(s, c).value;
    assert s[|a|] == c;
    assert forall k :: 0 <= k < |a| ==> s[k] == a[k];
    assert i == |a|;
    assert s[..|a|] == a;
    assert s[|a| + 1..] == b;
  }
}
