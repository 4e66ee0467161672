/** Markers that share their "#_#": where the loop of replacements and the substitution part. */
module PageBreakOverlap {
  import opened Text
  import opened Matching
  import opened Replacements
  import opened PageBreaks

  /** A marker, and on the next line another one that shares its end with a second copy of the
      first. */
  function Shared(a: string, b: string): string
    requires |a| > 3
  {
    a + ("\n" + (b + a[3..]))
  }

  /** A marker and how it ends. */
  ghost predicate Whole(m: string, next: string) {
    IsMarker(m, next) && |m| > 30 && m[..3] == m[|m| - 3..] == "#_#" && m[3] == '_' && m[4] == 'D'
  }

  lemma MarkerIsWhole(m: string, next: string)
    requires IsMarker(m, next)
    ensures Whole(m, next)
  {
    MarkerChars(m, next);
    var prev :| prev != "" && AllDigits(prev) && m == Marker(prev, next);
    var h := HEAD + prev + "_" + next;
    assert m[..3] == HEAD[..3] == "#_#";
    assert m == h + TAIL;
    assert m[|m| - 3..] == TAIL[1..] == "#_#";
  }

  lemma WholeMatches(m: string, next: string, rest: string)
    requires IsMarker(m, next)
    ensures MarkerAt(m + rest) == Some((|m|, next))
  {
    assert (m + rest)[..|m|] == m;
    MarkerAtIff(m + rest, |m|, next);
  }

  /** What the beginning of a text with a marker looks like. */
  lemma MarkerBegins(s: string)
    requires MarkerAt(s).Some?
    ensures |s| > 30 && s[0] == '#' && s[2] == '#' && exists k :: 3 <= k < |s| && s[k] == '#'
  {
    var (n, next) := MarkerAt(s).value;
    MatchIsMarker(s);
    MarkerIsWhole(s[..n], next);
    assert s[..n][..3][0] == s[0] && s[..n][..3][2] == s[2] && s[..n][n - 3..][0] == s[n - 3];
  }

  /** A text without a number sign after its first three characters does not begin with a
      marker; nor does one that does not begin with a number sign. */
  lemma NoLateSign(s: string)
    requires (forall k :: 3 <= k < |s| ==> s[k] != '#') || s == "" || s[0] != '#'
    ensures MarkerAt(s) == None
  {
    if MarkerAt(s).Some? {
      MarkerBegins(s);
    }
  }

  /** Where a marker's number signs are, apart from its end. */
  lemma SignsOfMarker(m: string, next: string)
    requires IsMarker(m, next)
    ensures forall k :: 0 <= k < |m| - 3 && m[k] == '#' ==> k == 0 || k == 2
    ensures forall k :: 3 <= k < |m| && m[k] == '#' ==> k >= |m| - 3
  {
    MarkerChars(m, next);
  }

  lemma TailHasNoMarker(m: string, next: string)
    requires IsMarker(m, next)
    ensures |m| > 3 && NoMatch(m[3..], MarkerAt)
  {
    MarkerIsWhole(m, next);
    SignsOfMarker(m, next);
    var t := m[3..];
    forall j | 0 <= j <= |t| ensures MarkerAt(t[j..]) == None {
      assert forall k :: 0 <= k < |t[j..]| ==> t[j..][k] == m[j + 3 + k];
      if j < |t| && t[j] == '#' {
        assert t[j] == m[j + 3];
        assert j + 3 >= |m| - 3;
      }
      NoLateSign(t[j..]);
    }
  }

  // ---------------------------------------------------------------- the substitution

  lemma SubstitutionOfShared(a: string, g: string, b: string, h: string)
    requires IsMarker(a, g) && IsMarker(b, h) && |a| > 3
    ensures Rewrite(Shared(a, b)) == Comment(g) + ("\n" + (Comment(h) + a[3..]))
    ensures Tokens(Shared(a, b)) == [Hit(a, g)] + ([Char('\n')] + ([Hit(b, h)] + Tokens(a[3..])))
  {
    MarkersAreSensible();
    var t := a[3..];
    var u := b + t;
    var w := "\n" + u;
    TailHasNoMarker(a, g);
    NothingToReplace(t, MarkerAt, Comment);
    WholeMatches(b, h, t);
    HitFirst(b, h, t, MarkerAt, Comment);
    NoLateSign(w);
    CharFirst('\n', u, MarkerAt, Comment);
    WholeMatches(a, g, w);
    HitFirst(a, g, w, MarkerAt, Comment);
  }

  lemma HitFirst(text: string, group: string, rest: string, m: Matcher, f: string -> string)
    requires Sensible(m) && m(text + rest) == Some((|text|, group))
    ensures Sub(text + rest, m, f) == f(group) + Sub(rest, m, f)
    ensures Scan(text + rest, m) == [Hit(text, group)] + Scan(rest, m)
  {
    assert (text + rest)[|text|..] == rest && (text + rest)[..|text|] == text;
  }

  lemma CharFirst(c: char, rest: string, m: Matcher, f: string -> string)
    requires Sensible(m) && m([c] + rest) == None
    ensures Sub([c] + rest, m, f) == [c] + Sub(rest, m, f)
    ensures Scan([c] + rest, m) == [Char(c)] + Scan(rest, m)
  {
    assert ([c] + rest)[1..] == rest;
  }

  // ---------------------------------------------------------------- the loop

  lemma ReplaceNowhere(s: string, text: string, group: string, new': string, m: Matcher)
    requires Sensible(m) && NoMatch(s, m) && IsHit(m, text, group) && text != ""
    ensures Replace(s, text, new') == s
  {
    forall j | 0 <= j < |s| ensures !(text <= (s + "")[j..]) {
      assert s + "" == s;
      assert Carries(m, text, s[j..]);
      assert m(s[j..]) == None;
    }
    ReplaceSkips(s, "", text, new');
    assert s + "" == s;
  }

  /** If the first replacement leaves no match, the loop stops changing the text. */
  lemma {:induction false} OnlyFirstReplaces(s: string, hits: seq<(string, string)>, m: Matcher, f: string -> string, after: string)
    requires Sensible(m) && hits != [] && NoneEmpty(hits) && AreHits(m, hits)
    requires Replace(s, hits[0].0, f(hits[0].1)) == after && NoMatch(after, m)
    ensures ReplaceAll(s, hits, f) == after
  {
    var init := hits[..|hits| - 1];
    var (text, group) := hits[|hits| - 1];
    if init == [] {
      assert ReplaceAll(s, init, f) == s;
    } else {
      OnlyFirstReplaces(s, init, m, f, after);
      ReplaceNowhere(after, text, group, f(group), m);
    }
  }

  /** What the first replacement makes of the text: the shared copy goes too, and takes the end
      of the marker before it along. */
  function Broken(b: string, comment: string): string
    requires |b| > 3
  {
    comment + ("\n" + (b[..|b| - 3] + comment))
  }

  lemma SameStart(a: string, g: string, b: string, h: string, s: string)
    requires IsMarker(a, g) && IsMarker(b, h) && a <= s && b <= s
    ensures a == b
  {
    WholeMatches(a, g, s[|a|..]);
    WholeMatches(b, h, s[|b|..]);
    assert a + s[|a|..] == s == b + s[|b|..];
  }

  lemma SharedEnd(a: string, g: string, b: string, h: string)
    requires IsMarker(a, g) && IsMarker(b, h)
    ensures |a| > 30 && |b| > 30 && b + a[3..] == b[..|b| - 3] + a
  {
    MarkerIsWhole(a, g);
    MarkerIsWhole(b, h);
    SwapEnd(a, b);
  }

  lemma SwapEnd(a: string, b: string)
    requires |a| >= 3 && |b| >= 3 && a[..3] == b[|b| - 3..]
    ensures b + a[3..] == b[..|b| - 3] + a
  {
    assert b == b[..|b| - 3] + a[..3] && a == a[..3] + a[3..];
  }

  /** Cut off before its end, the second marker holds no copy of the first. */
  lemma NotInside(a: string, g: string, b: string, h: string, i: nat)
    requires IsMarker(a, g) && IsMarker(b, h) && a != b && |b| > 3 && i < |b| - 3
    ensures !(a <= (b[..|b| - 3] + a)[i..])
  {
    SharedEnd(a, g, b, h);
    var s := b[..|b| - 3] + a;
    MarkerIsWhole(b, h);
    SignsOfMarker(b, h);
    assert s[i..][0] == s[i] == b[i] && s[i..][2] == s[i + 2] && s[4] == b[4] == 'D';
    if a <= s[i..] {
      assert MarkerAt(s[i..]).Some? by {
        WholeMatches(a, g, s[i..][|a|..]);
        assert a + s[i..][|a|..] == s[i..];
      }
      MarkerBegins(s[i..]);
      assert s[0..] == s && b <= s;
      SameStart(a, g, b, h, s);
    }
  }

  lemma NotInLine(a: string, g: string, b: string, h: string, j: nat)
    requires IsMarker(a, g) && IsMarker(b, h) && a != b && |b| > 3 && j < |b| - 2
    ensures !(a <= (("\n" + b[..|b| - 3]) + a)[j..])
  {
    var d := b[..|b| - 3];
    if j == 0 {
      MarkerIsWhole(a, g);
      assert a[0] == a[..3][0];
    } else {
      NotInside(a, g, b, h, j - 1);
      assert (("\n" + d) + a)[j..] == (d + a)[j - 1..];
    }
  }

  lemma FirstReplacement(a: string, g: string, b: string, h: string, comment: string)
    requires IsMarker(a, g) && IsMarker(b, h) && a != b && |a| > 3 && |b| > 3
    ensures Replace(Shared(a, b), a, comment) == Broken(b, comment)
  {
    SharedEnd(a, g, b, h);
    var d := b[..|b| - 3];
    GlueLine(d, a);
    GlueLine(d, comment);
    LastLine(a, g, b, h, comment);
    ReplaceFirst(a, ("\n" + d) + a, comment);
  }

  lemma GlueLine(d: string, a: string)
    ensures "\n" + (d + a) == ("\n" + d) + a
  {
  }

  lemma LastLine(a: string, g: string, b: string, h: string, comment: string)
    requires IsMarker(a, g) && IsMarker(b, h) && a != b && |a| > 3 && |b| > 3
    ensures Replace(("\n" + b[..|b| - 3]) + a, a, comment) == ("\n" + b[..|b| - 3]) + comment
  {
    var line := "\n" + b[..|b| - 3];
    forall j | 0 <= j < |line| ensures !(a <= (line + a)[j..]) {
      NotInLine(a, g, b, h, j);
    }
    ReplaceSkips(line, a, a, comment);
    ReplaceWhole(a, comment);
  }

  lemma ReplaceWhole(text: string, new': string)
    requires text != ""
    ensures Replace(text, text, new') == new'
  {
    ReplaceFirst(text, "", new');
    assert text + "" == text && new' + "" == new';
  }

  lemma ReplaceFirst(text: string, rest: string, new': string)
    requires text != ""
    ensures Replace(text + rest, text, new') == new' + Replace(rest, text, new')
  {
    assert (text + rest)[|text|..] == rest;
  }

  lemma BrokenHasNoMarker(b: string, h: string, comment: string)
    requires IsMarker(b, h) && |b| > 3 && '#' !in comment
    ensures NoMatch(Broken(b, comment), MarkerAt)
  {
    SignsOfMarker(b, h);
    var s, d, at := Broken(b, comment), b[..|b| - 3], |comment| + 1;
    forall k | 0 <= k < |s| ensures s[k] == '#' ==> k == at || k == at + 2 {
      if at <= k < at + |d| {
        assert s[k] == b[k - at];
      } else if k < at - 1 {
        assert s[k] == comment[k];
      } else if k >= at + |d| {
        assert s[k] == comment[k - at - |d|];
      }
    }
    forall j | 0 <= j <= |s| ensures MarkerAt(s[j..]) == None {
      assert forall k :: 0 <= k < |s[j..]| ==> s[j..][k] == s[j + k];
      NoLateSign(s[j..]);
    }
  }

  // ---------------------------------------------------------------- main result

  /** Markers that share characters make the two differ even on plain page numbers: the
      substitution takes the markers from the left and rewrites the second one; the loop
      replaces the copy that shares its end, so that the second one is never found. */
  lemma SharedMarkersDisagree(a: string, g: string, b: string, h: string)
    requires IsMarker(a, g) && IsMarker(b, h) && a != b && Plain(g) && Plain(h)
    ensures |a| > 3 && |b| > 3
    ensures Rewrite(Shared(a, b)) == Comment(g) + ("\n" + (Comment(h) + a[3..]))
    ensures LoopRewrite(Shared(a, b)) == Broken(b, Comment(g))
    ensures LoopRewrite(Shared(a, b)) != Rewrite(Shared(a, b))
    ensures !MarkersUndisturbed(Shared(a, b)) && !NoOverlap(Shared(a, b), MarkerAt)
  {
    MarkerIsWhole(a, g);
    MarkerIsWhole(b, h);
    var s, after := Shared(a, b), Broken(b, Comment(g));
    SubstitutionOfShared(a, g, b, h);
    LoopOnShared(a, g, b, h);
    CommentChars(h);
    assert b[0] == b[..3][0] == '#';
    DifferAfter(Comment(g), Comment(h) + a[3..], b[..|b| - 3] + Comment(g));
    OnlyTwoHits(a, g, b, h);
    LoopAgreesIff(s);
    if NoOverlap(s, MarkerAt) {
      ApartIsUndisturbed(s);
    }
  }

  lemma DifferAfter(head: string, x: string, y: string)
    requires x != "" && y != "" && x[0] != y[0]
    ensures head + ("\n" + x) != head + ("\n" + y)
  {
    assert (head + ("\n" + x))[|head| + 1] == x[0] && (head + ("\n" + y))[|head| + 1] == y[0];
  }

  lemma LoopOnShared(a: string, g: string, b: string, h: string)
    requires IsMarker(a, g) && IsMarker(b, h) && a != b && Plain(g) && |a| > 3 && |b| > 3
    ensures LoopRewrite(Shared(a, b)) == Broken(b, Comment(g))
  {
    var s := Shared(a, b);
    MarkersAreSensible();
    SubRewritesScan(s, MarkerAt, Comment);
    HitsMatch(Tokens(s), MarkerAt);
    SubstitutionOfShared(a, g, b, h);
    assert Hits(Tokens(s))[0] == (a, g);
    RenumberedIff(g);
    FirstReplacement(a, g, b, h, Comment(g));
    CommentChars(g);
    BrokenHasNoMarker(b, h, Comment(g));
    OnlyFirstReplaces(s, Hits(Tokens(s)), MarkerAt, Renumbered, Broken(b, Comment(g)));
  }

  lemma {:induction false} ScanOfNoMatch(s: string, m: Matcher)
    requires Sensible(m) && NoMatch(s, m)
    ensures forall t :: t in Scan(s, m) ==> t.Char?
  {
    if s != "" {
      assert s[0..] == s;
      forall i | 0 <= i <= |s[1..]| ensures m(s[1..][i..]) == None {
        assert s[1..][i..] == s[i + 1..];
      }
      ScanOfNoMatch(s[1..], m);
    }
  }

  lemma OnlyTwoHits(a: string, g: string, b: string, h: string)
    requires IsMarker(a, g) && IsMarker(b, h) && |a| > 3
    ensures forall t :: t in Tokens(Shared(a, b)) && t.Hit? ==> t.group == g || t.group == h
  {
    SubstitutionOfShared(a, g, b, h);
    TailHasNoMarker(a, g);
    MarkersAreSensible();
    ScanOfNoMatch(a[3..], MarkerAt);
    ThreeFirst(Hit(a, g), Char('\n'), Hit(b, h), Tokens(a[3..]));
  }

  lemma ThreeFirst(x: Token, y: Token, z: Token, rest: seq<Token>)
    ensures forall t :: t in [x] + ([y] + ([z] + rest)) ==> t == x || t == y || t == z || t in rest
  {
  }

  lemma MarkersDiffer(p: string, g: string, q: string, h: string)
    requires |p| == |q| && p != q
    ensures Marker(p, g) != Marker(q, h)
  {
    NumberOf(HEAD, p, "_" + g + TAIL);
    NumberOf(HEAD, q, "_" + h + TAIL);
    assert Marker(p, g) == HEAD + p + ("_" + g + TAIL) && Marker(q, h) == HEAD + q + ("_" + h + TAIL);
  }

  lemma NumberOf(head: string, p: string, tail: string)
    ensures (head + p + tail)[|head|..|head| + |p|] == p
  {
  }

  /** The text for any four plain numbers of which the first and third differ. */
  lemma NumbersDisagree(p: string, g: string, q: string, h: string)
    requires |p| == |q| > 0 && p != q && AllDigits(p) && AllDigits(q)
    requires g != "" && h != "" && Plain(g) && Plain(h)
    ensures |Marker(p, g)| > 3
    ensures var s := Shared(Marker(p, g), Marker(q, h));
            LoopRewrite(s) != Rewrite(s) && forall t :: t in Tokens(s) && t.Hit? ==> Plain(t.group)
  {
    var a, b := Marker(p, g), Marker(q, h);
    assert IsMarker(a, g) && IsMarker(b, h);
    MarkersDiffer(p, g, q, h);
    SharedMarkersDisagree(a, g, b, h);
    OnlyTwoHits(a, g, b, h);
  }

  /** Such a text, with the numbers 3 to 4 and 1 to 2. */
  lemma OverlapBreaksTheLoop()
    ensures |Marker("3", "4")| > 3
    ensures var s := Shared(Marker("3", "4"), Marker("1", "2"));
            LoopRewrite(s) != Rewrite(s) && forall t :: t in Tokens(s) && t.Hit? ==> Plain(t.group)
  {
    assert "3"[0] != "1"[0];
    NumbersDisagree("3", "4", "1", "2");
  }
}
