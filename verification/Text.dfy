/** The string operations the rest of the model shares: Python's whitespace stripping,
    splitting and joining, powers of two, and decimal numerals. */
module Text {

  datatype Option<+T> = None | Some(value: T)

  // ---------------------------------------------------------------- stripping

  /** The characters `str.strip()` removes. */
  predicate IsSpace(c: char) {
    || '\t' <= c <= '\r'
    || '\U{1c}' <= c <= ' '
    || c == '\U{85}' || c == '\U{a0}' || c == '\U{1680}'
    || '\U{2000}' <= c <= '\U{200a}'
    || c == '\U{2028}' || c == '\U{2029}' || c == '\U{202f}' || c == '\U{205f}' || c == '\U{3000}'
  }

  function LStrip(s: string): (r: string)
    ensures r == "" || !IsSpace(r[0])
  {
    if s != "" && IsSpace(s[0]) then LStrip(s[1..]) else s
  }

  function RStrip(s: string): (r: string)
    ensures r <= s
    ensures r == "" || !IsSpace(r[|r| - 1])
  {
    if s != "" && IsSpace(s[|s| - 1]) then RStrip(s[..|s| - 1]) else s
  }

  function Strip(s: string): (r: string)
    ensures IsStripped(r)
  {
    RStrip(LStrip(s))
  }

  predicate IsStripped(s: string) {
    s == "" || (!IsSpace(s[0]) && !IsSpace(s[|s| - 1]))
  }

  /** How much whitespace a string begins with. */
  function Indent(s: string): (n: nat)
    ensures n <= |s| && LStrip(s) == s[n..]
    ensures forall i :: 0 <= i < n ==> IsSpace(s[i])
  {
    if s != "" && IsSpace(s[0]) then 1 + Indent(s[1..]) else 0
  }

  lemma StripPadded(s: string)
    requires IsStripped(s)
    ensures Strip(s) == s
    ensures Strip(" " + s + " ") == s
  {
    var padded := " " + s + " ";
    assert padded[1..] == s + " ";
    if s == "" {
      assert padded == "  " && (s + " ")[1..] == "";
      assert LStrip(s + " ") == "";
      assert LStrip(padded) == "";
    } else {
      assert (s + " ")[0] == s[0];
      assert LStrip(padded) == LStrip(s + " ") == s + " ";
      assert (s + " ")[..|s|] == s;
    }
  }

  predicate AllSpace(s: string) {
    forall i :: 0 <= i < |s| ==> IsSpace(s[i])
  }

  lemma {:induction false} LStripDrops(s: string) returns (front: string)
    ensures AllSpace(front) && s == front + LStrip(s)
  {
    front := "";
    if s != "" && IsSpace(s[0]) {
      front := LStripDrops(s[1..]);
      front := [s[0]] + front;
    }
  }

  lemma {:induction false} RStripDrops(s: string) returns (back: string)
    ensures AllSpace(back) && s == RStrip(s) + back
  {
    back := "";
    if s != "" && IsSpace(s[|s| - 1]) {
      back := RStripDrops(s[..|s| - 1]);
      back := back + [s[|s| - 1]];
      assert s == s[..|s| - 1] + [s[|s| - 1]];
    }
  }

  /** Stripping takes whitespace away at both ends, all of it, and nothing else. */
  lemma StripDropsSpace(s: string) returns (front: string, back: string)
    ensures AllSpace(front) && AllSpace(back) && s == front + Strip(s) + back && IsStripped(Strip(s))
  {
    front := LStripDrops(s);
    back := RStripDrops(LStrip(s));
  }

  lemma StripStripped(s: string)
    requires IsStripped(s)
    ensures Strip(s) == s
  {
  }

  // ---------------------------------------------------------------- splitting and joining

  /** `s.split(sep)` for a one-character separator. */
  function Split(s: string, sep: char): (parts: seq<string>)
    ensures parts != []
  {
    if s == "" then [""]
    else
      var rest := Split(s[1..], sep);
      if s[0] == sep then [""] + rest
      else [[s[0]] + rest[0]] + rest[1..]
  }

  lemma {:induction false} SplitConcat(a: string, b: string, sep: char)
    ensures Split(a + [sep] + b, sep) == Split(a, sep) + Split(b, sep)
  {
    if a == "" {
      assert (a + [sep] + b)[1..] == b;
    } else {
      assert (a + [sep] + b)[1..] == a[1..] + [sep] + b;
      SplitConcat(a[1..], b, sep);
    }
  }

  lemma {:induction false} SplitWhole(s: string, sep: char)
    requires sep !in s
    ensures Split(s, sep) == [s]
  {
    if s != "" {
      SplitWhole(s[1..], sep);
      assert [s[0]] + s[1..] == s;
    }
  }

  /** `sep.join(parts)`. */
  function Join(parts: seq<string>, sep: string): string {
    if parts == [] then ""
    else if |parts| == 1 then parts[0]
    else parts[0] + sep + Join(parts[1..], sep)
  }

  lemma {:induction false} SplitJoin(parts: seq<string>, sep: char)
    requires parts != [] && forall i :: 0 <= i < |parts| ==> sep !in parts[i]
    ensures Split(Join(parts, [sep]), sep) == parts
  {
    SplitWhole(parts[0], sep);
    if |parts| > 1 {
      SplitJoin(parts[1..], sep);
      SplitConcat(parts[0], Join(parts[1..], [sep]), sep);
    }
  }

  lemma {:induction false} JoinSplit(s: string, sep: char)
    ensures Join(Split(s, sep), [sep]) == s
  {
    if s != "" {
      var rest := Split(s[1..], sep);
      JoinSplit(s[1..], sep);
      JoinHead([s[0]], rest, [sep]);
      assert s == [s[0]] + s[1..];
      if s[0] == sep {
        assert ([""] + rest)[1..] == rest;
        assert Split(s, sep) == [""] + rest && [sep] + Join(rest, [sep]) == s;
      }
    }
  }

  lemma JoinHead(front: string, parts: seq<string>, sep: string)
    requires parts != []
    ensures Join([front + parts[0]] + parts[1..], sep) == front + Join(parts, sep)
  {
    assert ([front + parts[0]] + parts[1..])[1..] == parts[1..];
  }

  /** There is only one way to cut a string at its last separator. */
  lemma LastSeparator(a: string, d: string, b: string, e: string, sep: char)
    requires a + [sep] + d == b + [sep] + e && sep !in d && sep !in e
    ensures a == b && d == e
  {
    var s := a + [sep] + d;
    assert s[|a|] == sep && s[|b|] == sep;
    assert forall k :: |a| < k < |s| ==> s[k] == d[k - |a| - 1];
    assert forall k :: |b| < k < |s| ==> s[k] == e[k - |b| - 1];
    assert |a| == |b|;
    assert a == s[..|a|] && b == s[..|b|] && d == s[|a| + 1..] && e == s[|b| + 1..];
  }

  lemma SameTail<T>(a: seq<T>, b: seq<T>, tail: seq<T>)
    requires a + tail == b + tail
    ensures a == b
  {
    assert |a| == |b| && a == (a + tail)[..|a|] && b == (b + tail)[..|b|];
  }

  // ---------------------------------------------------------------- numerals

  function Pow2(n: nat): (p: nat)
    ensures p >= 1
  {
    if n == 0 then 1 else 2 * Pow2(n - 1)
  }

  predicate IsAsciiDigit(c: char) {
    '0' <= c <= '9'
  }

  predicate AllAsciiDigits(s: string) {
    forall i :: 0 <= i < |s| ==> IsAsciiDigit(s[i])
  }

  function Decimal(n: nat): (s: string)
    ensures s != "" && AllAsciiDigits(s)
    ensures s[0] == '0' ==> s == "0"
  {
    if n < 10 then ['0' + n as char] else Decimal(n / 10) + ['0' + (n % 10) as char]
  }

  function Value(s: string): nat
    requires AllAsciiDigits(s)
  {
    if s == "" then 0 else Value(s[..|s| - 1]) * 10 + (s[|s| - 1] - '0') as nat
  }

  lemma {:induction false} ValueOfDecimal(n: nat)
    ensures Value(Decimal(n)) == n
  {
    if n >= 10 {
      var s := Decimal(n);
      assert s[..|s| - 1] == Decimal(n / 10);
      ValueOfDecimal(n / 10);
    } else {
      var s := Decimal(n);
      assert s[..|s| - 1] == "" && Value("") == 0;
    }
  }

  lemma DecimalSnoc(n: nat, d: nat)
    requires n > 0 && d <= 9
    ensures Decimal(n * 10 + d) == Decimal(n) + ['0' + d as char]
  {
    assert (n * 10 + d) / 10 == n && (n * 10 + d) % 10 == d;
  }
}
