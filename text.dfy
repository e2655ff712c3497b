/** String helpers shared by the models: search, split and join on one separator,
    and the ASCII case operations of Rust's `char` and `str`. */
module Text {
  import opened Wrappers

  /** Index of the first occurrence of `c` in `s`. */
  function IndexOf(s: string, c: char): (r: Option<nat>)
    ensures r.None? <==> c !in s
    ensures r.Some? ==> r.value < |s| && s[r.value] == c && c !in s[..r.value]
  {
    if |s| == 0 then None
    else if s[0] == c then Some(0)
    else
      match IndexOf(s[1..], c)
      case None => None
      case Some(i) =>
        assert s[..i + 1] == [s[0]] + s[1..][..i];
        Some(i + 1)
  }

  lemma IndexOfFirst(s: string, c: char, i: nat)
    requires i < |s| && s[i] == c && c !in s[..i]
    ensures IndexOf(s, c) == Some(i)
  {
    assert s[i] in s;
  }

  /** `s.split(sep)`: the pieces between separators, always at least one. */
  function Split(s: string, sep: char): (r: seq<string>)
    ensures |r| >= 1
    ensures forall i :: 0 <= i < |r| ==> sep !in r[i]
    decreases |s|
  {
    match IndexOf(s, sep)
    case None => [s]
    case Some(i) => [s[..i]] + Split(s[i + 1..], sep)
  }

  lemma SplitStep(s: string, sep: char, i: nat)
    requires IndexOf(s, sep) == Some(i)
    ensures Split(s, sep) == [s[..i]] + Split(s[i + 1..], sep)
  {
  }

  lemma SplitNoSep(s: string, sep: char)
    requires sep !in s
    ensures Split(s, sep) == [s]
  {
  }

  /** The pieces glued back together with `sep` between them. */
  function Join(parts: seq<string>, sep: char): string
  {
    if |parts| == 0 then ""
    else if |parts| == 1 then parts[0]
    else parts[0] + [sep] + Join(parts[1..], sep)
  }

  lemma IndexOfAfter(a: string, sep: char, b: string)
    requires sep !in a
    ensures IndexOf(a + [sep] + b, sep) == Some(|a|)
  {
    var s := a + [sep] + b;
    assert s[|a|] == sep;
    assert s[..|a|] == a;
  }

  /** A first occurrence stays first when more text is appended. */
  lemma IndexOfPrefix(a: string, c: char, b: string, i: nat)
    requires IndexOf(a, c) == Some(i)
    ensures IndexOf(a + b, c) == Some(i)
  {
    assert (a + b)[..i] == a[..i];
    IndexOfFirst(a + b, c, i);
  }

  /** Splitting then joining gives the string back. */
  lemma {:induction false} JoinSplit(s: string, sep: char)
    ensures Join(Split(s, sep), sep) == s
    decreases |s|
  {
    match IndexOf(s, sep)
    case None =>
    case Some(i) =>
      var rest := s[i + 1..];
      var tail := Split(rest, sep);
      var parts := [s[..i]] + tail;
      assert Split(s, sep) == parts;
      assert parts[1..] == tail;
      JoinSplit(rest, sep);
      assert Join(parts, sep) == s[..i] + [sep] + Join(tail, sep);
      assert s == s[..i] + [sep] + rest;
  }

  /** A separator-free head followed by a separator splits off as the first piece. */
  lemma SplitAfter(a: string, sep: char, b: string)
    requires sep !in a
    ensures Split(a + [sep] + b, sep) == [a] + Split(b, sep)
  {
    var s := a + [sep] + b;
    IndexOfAfter(a, sep, b);
    SplitStep(s, sep, |a|);
    assert s[..|a|] == a;
    assert s[|a| + 1..] == b;
  }

  /** Joining pieces free of the separator, then splitting, gives the pieces back. */
  lemma {:induction false} SplitJoin(parts: seq<string>, sep: char)
    requires |parts| >= 1
    requires forall i :: 0 <= i < |parts| ==> sep !in parts[i]
    ensures Split(Join(parts, sep), sep) == parts
  {
    if |parts| == 1 {
      SplitNoSep(parts[0], sep);
    } else {
      var tail := parts[1..];
      SplitJoin(tail, sep);
      SplitAfter(parts[0], sep, Join(tail, sep));
      assert parts == [parts[0]] + tail;
    }
  }

  lemma ConsAssoc(h: string, x: seq<string>, y: seq<string>)
    ensures [h] + (x + y) == ([h] + x) + y
  {
  }

  /** Splitting around a separator splits the two sides independently. */
  lemma {:induction false} SplitAround(a: string, sep: char, b: string)
    ensures Split(a + [sep] + b, sep) == Split(a, sep) + Split(b, sep)
    decreases |a|
  {
    var r := IndexOf(a, sep);
    if r.None? {
      SplitAfter(a, sep, b);
      SplitNoSep(a, sep);
    } else {
      var i := r.value;
      var head, rest := a[..i], a[i + 1..];
      var t := rest + [sep] + b;
      assert a == head + [sep] + rest;
      assert a + [sep] + b == head + [sep] + t;
      SplitAround(rest, sep, b);
      SplitAfter(head, sep, t);
      SplitAfter(head, sep, rest);
      ConsAssoc(head, Split(rest, sep), Split(b, sep));
    }
  }

  /** Joining one more piece adds a separator and the piece. */
  lemma {:induction false} JoinSnoc(cs: seq<string>, sep: char, x: string)
    requires |cs| > 0
    ensures Join(cs + [x], sep) == Join(cs, sep) + [sep] + x
  {
    if |cs| == 1 {
      assert (cs + [x])[1..] == [x];
    } else {
      assert (cs + [x])[1..] == cs[1..] + [x];
      JoinSnoc(cs[1..], sep, x);
    }
  }

  /** The position of the last `c` in `s`. */
  function LastIndexOf(s: string, c: char): (r: Option<nat>)
    ensures r.None? <==> c !in s
    ensures r.Some? ==> r.value < |s| && s[r.value] == c && c !in s[r.value + 1..]
  {
    if |s| == 0 then None
    else if s[|s| - 1] == c then Some(|s| - 1)
    else
      var r := LastIndexOf(s[..|s| - 1], c);
      assert forall x :: x in s <==> x in s[..|s| - 1] || x == s[|s| - 1] by {
        assert s == s[..|s| - 1] + [s[|s| - 1]];
      }
      if r.Some? then
        assert s[r.value + 1..] == s[..|s| - 1][r.value + 1..] + [s[|s| - 1]];
        r
      else r
  }

  /** `s.rsplitn(n, sep)`: pieces taken from the right, at most `n`, the last one being
      all that is left. */
  function RSplitN(s: string, n: nat, sep: char): (r: seq<string>)
    requires n >= 1
    ensures 1 <= |r| <= n
  {
    if n == 1 then [s]
    else
      match LastIndexOf(s, sep)
      case None => [s]
      case Some(i) => [s[i + 1..]] + RSplitN(s[..i], n - 1, sep)
  }

  /** Splitting at the last separator. */
  lemma SplitAtLast(s: string, sep: char, i: nat)
    requires LastIndexOf(s, sep) == Some(i)
    ensures Split(s, sep) == Split(s[..i], sep) + [s[i + 1..]]
  {
    assert s == s[..i] + [sep] + s[i + 1..];
    SplitAround(s[..i], sep, s[i + 1..]);
    SplitNoSep(s[i + 1..], sep);
  }

  /** `r` is what `rsplitn(n)` makes of the pieces `f`: min(n, |f|) parts, the last
      pieces of `f` from the right, then the rest of `f` joined back. */
  predicate RSplitShape(f: seq<string>, r: seq<string>, n: nat, sep: char)
  {
    |r| == (if n < |f| then n else |f|) && |r| >= 1 &&
    (forall k :: 0 <= k < |r| - 1 ==> r[k] == f[|f| - 1 - k]) &&
    r[|r| - 1] == Join(f[..|f| - |r| + 1], sep)
  }

  /** One more piece at the end of the pieces and at the front of the parts keeps the
      shape, with one more part allowed. */
  lemma ShapeStep(f: seq<string>, g: seq<string>, t: string, r: seq<string>, r': seq<string>, n: nat, sep: char)
    requires n >= 2
    requires f == g + [t] && r == [t] + r'
    requires RSplitShape(g, r', n - 1, sep)
    ensures RSplitShape(f, r, n, sep)
  {
    forall k | 1 <= k < |r| - 1 ensures r[k] == f[|f| - 1 - k] {
      assert r[k] == r'[k - 1];
    }
    assert f[..|f| - |r| + 1] == g[..|g| - |r'| + 1];
  }

  lemma RSplitNLast(s: string, n: nat, sep: char, i: nat)
    requires n >= 2 && LastIndexOf(s, sep) == Some(i)
    ensures RSplitN(s, n, sep) == [s[i + 1..]] + RSplitN(s[..i], n - 1, sep)
  {
  }

  lemma RSplitNOne(s: string, sep: char)
    ensures RSplitShape(Split(s, sep), RSplitN(s, 1, sep), 1, sep)
  {
    var f := Split(s, sep);
    JoinSplit(s, sep);
    assert f[..|f|] == f;
  }

  lemma RSplitNNoSep(s: string, n: nat, sep: char)
    requires n >= 2 && LastIndexOf(s, sep).None?
    ensures RSplitShape(Split(s, sep), RSplitN(s, n, sep), n, sep)
  {
    var f := Split(s, sep);
    SplitNoSep(s, sep);
    assert f == [s] && RSplitN(s, n, sep) == [s] && f[..1] == [s];
  }

  /** `rsplitn` in terms of `split`: with `F` the pieces of `s`, it gives the last
      min(n, |F|) - 1 pieces of `F` from the right, then the rest of `F` joined back. */
  lemma {:induction false} RSplitNSplit(s: string, n: nat, sep: char) returns (f: seq<string>, r: seq<string>)
    requires n >= 1
    ensures f == Split(s, sep) && r == RSplitN(s, n, sep)
    ensures RSplitShape(f, r, n, sep)
  {
    f, r := Split(s, sep), RSplitN(s, n, sep);
    var last := LastIndexOf(s, sep);
    if n == 1 {
      RSplitNOne(s, sep);
    } else if last.None? {
      RSplitNNoSep(s, n, sep);
    } else {
      var i := last.value;
      SplitAtLast(s, sep, i);
      RSplitNLast(s, n, sep, i);
      var g, r' := RSplitNSplit(s[..i], n - 1, sep);
      ShapeStep(f, g, s[i + 1..], r, r', n, sep);
    }
  }

  predicate IsAsciiUpper(c: char) { 'A' <= c <= 'Z' }

  /** `char::to_ascii_lowercase`: A-Z shift to a-z, everything else is kept. */
  function AsciiLower(c: char): (r: char)
    ensures !IsAsciiUpper(r)
    ensures IsAsciiUpper(c) ==> r as int == c as int + 32
    ensures !IsAsciiUpper(c) ==> r == c
  {
    if IsAsciiUpper(c) then (c as int + 32) as char else c
  }

  /** `str::eq_ignore_ascii_case`: equal lengths and equal after ASCII lowering. */
  predicate EqIgnoreAsciiCase(a: string, b: string)
  {
    |a| == |b| && forall i :: 0 <= i < |a| ==> AsciiLower(a[i]) == AsciiLower(b[i])
  }

  predicate IsDigit(c: char) { '0' <= c <= '9' }

  /** The decimal digits of `n`, most significant first, as `Display` prints them. */
  function NatToDecimal(n: nat): (r: string)
    ensures |r| >= 1 && forall i :: 0 <= i < |r| ==> IsDigit(r[i])
  {
    var d := ['0' + (n % 10) as char];
    if n < 10 then d else NatToDecimal(n / 10) + d
  }

  function DigitValue(c: char): nat
    requires IsDigit(c)
  {
    c as int - '0' as int
  }

  /** The number a string of decimal digits denotes. */
  function DecimalValue(s: string): nat
    requires forall i :: 0 <= i < |s| ==> IsDigit(s[i])
  {
    if |s| == 0 then 0
    else DecimalValue(s[..|s| - 1]) * 10 + DigitValue(s[|s| - 1])
  }

  /** Printing a number in decimal loses nothing: the digits denote the number. */
  lemma {:induction false} DecimalRoundTrip(n: nat)
    ensures DecimalValue(NatToDecimal(n)) == n
  {
    var r := NatToDecimal(n);
    if n >= 10 {
      DecimalRoundTrip(n / 10);
      assert r[..|r| - 1] == NatToDecimal(n / 10);
    }
  }

  /** `i64`'s `Display`: a minus sign for negative numbers, then the digits. */
  function IntToDecimal(i: int): (r: string)
    ensures i >= 0 ==> r == NatToDecimal(i)
    ensures i < 0 ==> r == "-" + NatToDecimal(-i)
  {
    if i < 0 then "-" + NatToDecimal(-i) else NatToDecimal(i)
  }
}
