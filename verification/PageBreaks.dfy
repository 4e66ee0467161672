/** Rewriting page-break markers into page comments: the regular-expression substitution of
    the serializer, and the loop of string replacements it stands in for. */
module PageBreaks {
  import opened Text
  import opened Matching
  import opened Replacements

  const HEAD: string := "#_#_DOCLING_DOC_PAGE_BREAK_"
  const TAIL: string := "_#_#"
  const COMMENT_HEAD: string := "<!-- PAGE_BREAK: Page "
  const COMMENT_TAIL: string := " -->"

  // ---------------------------------------------------------------- digits

  /** The characters with which the runs of decimal digits outside ASCII begin. */
  const ZEROS: seq<char> := [
    '\U{660}', '\U{6f0}', '\U{7c0}', '\U{966}', '\U{9e6}', '\U{a66}', '\U{ae6}', '\U{b66}', '\U{be6}',
    '\U{c66}', '\U{ce6}', '\U{d66}', '\U{de6}', '\U{e50}', '\U{ed0}', '\U{f20}', '\U{1040}', '\U{1090}',
    '\U{17e0}', '\U{1810}', '\U{1946}', '\U{19d0}', '\U{1a80}', '\U{1a90}', '\U{1b50}', '\U{1bb0}',
    '\U{1c40}', '\U{1c50}', '\U{a620}', '\U{a8d0}', '\U{a900}', '\U{a9d0}', '\U{a9f0}', '\U{aa50}',
    '\U{abf0}', '\U{ff10}', '\U{104a0}', '\U{10d30}', '\U{11066}', '\U{110f0}', '\U{11136}', '\U{111d0}',
    '\U{112f0}', '\U{11450}', '\U{114d0}', '\U{11650}', '\U{116c0}', '\U{11730}', '\U{118e0}', '\U{11950}',
    '\U{11c50}', '\U{11d50}', '\U{11da0}', '\U{11f50}', '\U{16a60}', '\U{16ac0}', '\U{16b50}', '\U{1d7ce}',
    '\U{1d7d8}', '\U{1d7e2}', '\U{1d7ec}', '\U{1d7f6}', '\U{1e140}', '\U{1e2f0}', '\U{1e4f0}', '\U{1e950}',
    '\U{1fbf0}']

  /** The run that holds the character, searched from `from` on; the number of runs if none
      does. */
  function RunOf(c: char, from: nat): (run: nat)
    requires from <= |ZEROS|
    ensures from <= run <= |ZEROS|
    ensures run < |ZEROS| ==> 0 <= c as int - ZEROS[run] as int <= 9
    decreases |ZEROS| - from
  {
    if from == |ZEROS| || 0 <= c as int - ZEROS[from] as int <= 9 then from else RunOf(c, from + 1)
  }

  /** `\d` */
  predicate IsDigit(c: char) {
    IsAsciiDigit(c) || (c >= '\U{660}' && RunOf(c, 0) < |ZEROS|)
  }

  /** The digits are those of ASCII and, beyond, ten from each of the characters listed. */
  lemma DigitIff(c: char)
    ensures IsDigit(c) <==>
              '0' <= c <= '9' || (c >= '\U{660}' && exists k :: 0 <= k < |ZEROS| && 0 <= c as int - ZEROS[k] as int <= 9)
  {
    RunIsFirst(c, 0);
  }

  lemma {:induction false} RunIsFirst(c: char, from: nat)
    requires from <= |ZEROS|
    ensures forall k :: from <= k < |ZEROS| && 0 <= c as int - ZEROS[k] as int <= 9 ==> RunOf(c, from) < |ZEROS|
    decreases |ZEROS| - from
  {
    if from < |ZEROS| {
      RunIsFirst(c, from + 1);
    }
  }

  function DigitValue(c: char): (d: nat)
    requires IsDigit(c)
    ensures d <= 9
  {
    if IsAsciiDigit(c) then (c - '0') as nat else c as int - ZEROS[RunOf(c, 0)] as int
  }

  predicate AllDigits(s: string) {
    forall i :: 0 <= i < |s| ==> IsDigit(s[i])
  }

  /** `int(s)` of a non-empty digit string. */
  function Number(s: string): nat
    requires AllDigits(s)
  {
    if s == "" then 0 else Number(s[..|s| - 1]) * 10 + DigitValue(s[|s| - 1])
  }

  // ---------------------------------------------------------------- the pattern

  /** `m` is a complete marker whose second page number is `next`. */
  ghost predicate IsMarker(m: string, next: string) {
    next != "" && AllDigits(next) && exists prev :: prev != "" && AllDigits(prev) && m == Marker(prev, next)
  }

  function Marker(prev: string, next: string): string {
    HEAD + prev + "_" + next + TAIL
  }

  /** The end of the digits that begin at `from`. */
  function DigitsEnd(s: string, from: nat): (end: nat)
    requires from <= |s|
    ensures from <= end <= |s|
    ensures forall i :: from <= i < end ==> IsDigit(s[i])
    ensures end < |s| ==> !IsDigit(s[end])
    decreases |s| - from
  {
    if from < |s| && IsDigit(s[from]) then DigitsEnd(s, from + 1) else from
  }

  /** The part of the regular expression after the fixed head, tried at `from`.  No digit
      run can be followed by a different one, so the greedy repetitions never backtrack. */
  function NumbersAt(s: string, from: nat): Option<(nat, string)>
    requires from <= |s|
  {
    var a := DigitsEnd(s, from);
    if a == from || a == |s| || s[a] != '_' then None
    else
      var b := DigitsEnd(s, a + 1);
      if b == a + 1 || !(TAIL <= s[b..]) then None
      else Some((b + |TAIL|, s[a + 1..b]))
  }

  /** The regular expression, tried at the start of `s`: the length of the match and its
      captured group. */
  function MarkerAt(s: string): Option<(nat, string)> {
    if HEAD <= s then NumbersAt(s, |HEAD|) else None
  }

  lemma FiveParts(s: string, a: nat, b: nat, c: nat, d: nat)
    requires a <= b < c <= d <= |s|
    ensures s[..d] == s[..a] + s[a..b] + [s[b]] + s[b + 1..c] + s[c..d]
  {
  }

  ghost predicate Cut(s: string, from: nat, a: nat, b: nat) {
    && from < a < b - 1 && b <= |s|
    && AllDigits(s[from..a]) && s[a] == '_' && AllDigits(s[a + 1..b]) && TAIL <= s[b..]
  }

  lemma NumbersAtIff(s: string, from: nat)
    requires from <= |s|
    ensures NumbersAt(s, from).Some? ==>
              exists a: nat, b: nat :: Cut(s, from, a, b) && NumbersAt(s, from) == Some((b + |TAIL|, s[a + 1..b]))
  {
    var a := DigitsEnd(s, from);
    if NumbersAt(s, from).Some? {
      var b := DigitsEnd(s, a + 1);
      assert Cut(s, from, a, b);
    }
  }

  lemma NumbersAtCut(s: string, from: nat, a: nat, b: nat)
    requires Cut(s, from, a, b)
    ensures NumbersAt(s, from) == Some((b + |TAIL|, s[a + 1..b]))
  {
    DigitsEndIs(s, from, a);
    assert s[b] == s[b..][0] == TAIL[0];
    DigitsEndIs(s, a + 1, b);
  }

  lemma MatchIsMarker(s: string)
    requires MarkerAt(s).Some?
    ensures var (n, next) := MarkerAt(s).value; 0 < n <= |s| && IsMarker(s[..n], next)
  {
    NumbersAtIff(s, |HEAD|);
    var a: nat, b: nat :| Cut(s, |HEAD|, a, b) && NumbersAt(s, |HEAD|) == Some((b + |TAIL|, s[a + 1..b]));
    PiecesAreMarker(s, a, b);
  }

  lemma PiecesAreMarker(s: string, a: nat, b: nat)
    requires HEAD <= s && Cut(s, |HEAD|, a, b)
    ensures b + |TAIL| <= |s| && IsMarker(s[..b + |TAIL|], s[a + 1..b])
  {
    var h, end := |HEAD|, b + |TAIL|;
    assert s[b..][..|TAIL|] == s[b..end];
    FiveParts(s, h, a, b, end);
    MarkerOfParts(s[..end], s[h..a], s[a + 1..b], s[..h], [s[a]], s[b..end]);
  }

  lemma MarkerOfParts(m: string, prev: string, next: string, head: string, bar: string, tail: string)
    requires m == head + prev + bar + next + tail
    requires head == HEAD && bar == "_" && tail == TAIL
    requires prev != "" && next != "" && AllDigits(prev) && AllDigits(next)
    ensures IsMarker(m, next)
  {
    assert m == Marker(prev, next);
  }

  lemma DigitsEndIs(s: string, from: nat, end: nat)
    requires from <= end < |s| && !IsDigit(s[end]) && AllDigits(s[from..end])
    ensures DigitsEnd(s, from) == end
  {
    forall i | from <= i < end ensures IsDigit(s[i]) {
      assert s[i] == s[from..end][i - from];
    }
    assert DigitsEnd(s, from) <= end;
  }

  lemma Pieces(head: string, prev: string, next: string, tail: string, rest: string)
    ensures var s := head + prev + "_" + next + tail + rest;
            var a := |head| + |prev|;
            var b := a + 1 + |next|;
            && head <= s && s[|head|..a] == prev && s[a] == '_'
            && s[a + 1..b] == next && tail <= s[b..]
  {
  }

  /** A marker at the start of a string is found, and only that marker. */
  lemma MarkerMatches(prev: string, next: string, rest: string)
    requires prev != "" && next != "" && AllDigits(prev) && AllDigits(next)
    ensures MarkerAt(Marker(prev, next) + rest) == Some((|Marker(prev, next)|, next))
  {
    var s := Marker(prev, next) + rest;
    var a := |HEAD| + |prev|;
    var b := a + 1 + |next|;
    Pieces(HEAD, prev, next, TAIL, rest);
    NumbersAtCut(s, |HEAD|, a, b);
  }

  /** The matcher finds a marker at the start of a text exactly when the text begins with
      one, and then its whole extent and its second number. */
  lemma MarkerAtIff(s: string, n: nat, next: string)
    ensures MarkerAt(s) == Some((n, next)) <==> n <= |s| && IsMarker(s[..n], next)
  {
    if MarkerAt(s) == Some((n, next)) {
      MatchIsMarker(s);
    } else if n <= |s| && IsMarker(s[..n], next) {
      var prev :| prev != "" && AllDigits(prev) && s[..n] == Marker(prev, next);
      assert s == s[..n] + s[n..];
      MarkerMatches(prev, next, s[n..]);
    }
  }

  /** Where the number signs of a marker are, and which characters it does not hold. */
  lemma MarkerChars(m: string, next: string)
    requires IsMarker(m, next)
    ensures |m| > 30 && m[0] == '#' && m[3] == '_' && m[4] == 'D'
    ensures '<' !in m && '\n' !in m
    ensures forall k :: 0 <= k < |m| && m[k] == '#' ==> k == 0 || k == 2 || k == |m| - 3 || k == |m| - 1
  {
    var prev :| prev != "" && AllDigits(prev) && m == Marker(prev, next);
    var a := |HEAD| + |prev|;
    var b := a + 1 + |next|;
    forall k | 0 <= k < |m|
      ensures m[k] != '<' && m[k] != '\n'
      ensures m[k] == '#' ==> k == 0 || k == 2 || k == |m| - 3 || k == |m| - 1
    {
      if k < |HEAD| {
        assert m[k] == HEAD[k];
      } else if k < a {
        assert m[k] == prev[k - |HEAD|];
      } else if k == a {
        assert m[k] == '_';
      } else if k < b {
        assert m[k] == next[k - (a + 1)];
      } else {
        assert m[k] == TAIL[k - b];
      }
    }
  }

  // ---------------------------------------------------------------- the substitution

  function Comment(number: string): string {
    COMMENT_HEAD + number + COMMENT_TAIL
  }

  /** The marker that stands after page 1, and the comment that takes its place. */
  lemma FirstMarker()
    ensures Marker("1", "2") == "#_#_DOCLING_DOC_PAGE_BREAK_1_2_#_#"
    ensures Comment("2") == "<!-- PAGE_BREAK: Page 2 -->"
  {
  }

  lemma CommentChars(number: string)
    requires AllDigits(number)
    ensures |Comment(number)| > 20 && Comment(number)[0] == '<' && '#' !in Comment(number)
    ensures forall k :: 0 < k < |Comment(number)| ==> Comment(number)[k] != '<'
  {
    var c := Comment(number);
    forall k | 0 <= k < |c| ensures c[k] != '#' && (k > 0 ==> c[k] != '<') {
      if k < |COMMENT_HEAD| {
        assert c[k] == COMMENT_HEAD[k];
      } else if k < |COMMENT_HEAD| + |number| {
        assert c[k] == number[k - |COMMENT_HEAD|];
      } else {
        assert c[k] == COMMENT_TAIL[k - |COMMENT_HEAD| - |number|];
      }
    }
  }

  lemma MarkerCarries(s: string, t: string)
    ensures Carries(MarkerAt, s, t)
  {
    if MarkerAt(s).Some? && MarkerAt(s).value.0 <= |s| && s[..MarkerAt(s).value.0] <= t {
      var (n, next) := MarkerAt(s).value;
      MarkerAtIff(s, n, next);
      assert t[..n] == s[..n];
      MarkerAtIff(t, n, next);
    }
  }

  lemma MarkersAreSensible()
    ensures Sensible(MarkerAt)
  {
    forall s | MarkerAt(s).Some? ensures 0 < MarkerAt(s).value.0 <= |s| {
      MatchIsMarker(s);
    }
    forall s, t ensures Carries(MarkerAt, s, t) {
      MarkerCarries(s, t);
    }
  }

  /** `f` answers every page number with a page comment. */
  ghost predicate Comments(f: string -> string) {
    forall g :: AllDigits(g) ==> IsComment(f(g))
  }

  ghost predicate IsComment(c: string) {
    exists d :: AllDigits(d) && c == Comment(d)
  }

  lemma MarkerIsApart(s: string, f: string -> string)
    requires Comments(f)
    ensures ApartAt(s, MarkerAt, f, '#', '<')
  {
    if MarkerAt(s).Some? {
      var (n, next) := MarkerAt(s).value;
      MatchIsMarker(s);
      MarkerChars(s[..n], next);
      assert s[0] == s[..n][0] && IsComment(f(next));
      var d :| AllDigits(d) && f(next) == Comment(d);
      CommentChars(d);
    }
  }

  /** Markers and comments cannot be confused with one another. */
  lemma MarkersAreApart(f: string -> string)
    requires Comments(f)
    ensures Apart(MarkerAt, f, '#', '<')
  {
    forall s ensures ApartAt(s, MarkerAt, f, '#', '<') {
      MarkerIsApart(s, f);
    }
  }

  lemma BothAreComments()
    ensures Comments(Comment) && Comments(Renumbered)
  {
    forall g | AllDigits(g) ensures IsComment(Comment(g)) && IsComment(Renumbered(g)) {
      assert Comment(g) == Comment(g);
      assert Renumbered(g) == Comment(Decimal(Number(g)));
    }
  }

  /** `PAGE_BREAK_RE.sub(comment, s)` */
  function Rewrite(s: string): string {
    MarkersAreSensible();
    Sub(s, MarkerAt, Comment)
  }

  function Tokens(s: string): seq<Token> {
    MarkersAreSensible();
    Scan(s, MarkerAt)
  }

  /** The substitution cuts the text into markers and kept characters, no marker beginning
      at a kept character; it keeps the characters and replaces each marker by the comment
      with its second page number. */
  lemma RewriteKeepsText(s: string)
    ensures SourceOf(Tokens(s)) == s && Leftmost(Tokens(s), MarkerAt)
    ensures Rewrite(s) == Rewritten(Tokens(s), Comment)
  {
    MarkersAreSensible();
    SubRewritesScan(s, MarkerAt, Comment);
  }

  /** No complete marker is left in the result, so rewriting again changes nothing. */
  lemma RewriteIsIdempotent(s: string)
    ensures NoMatch(Rewrite(s), MarkerAt) && Rewrite(Rewrite(s)) == Rewrite(s)
  {
    MarkersAreSensible();
    BothAreComments();
    MarkersAreApart(Comment);
    SubIsIdempotent(s, MarkerAt, Comment, '#', '<');
  }

  // ---------------------------------------------------------------- the loop it replaced

  /** The older code reads the page number as an integer and prints it again. */
  function Renumbered(number: string): string {
    if AllDigits(number) then Comment(Decimal(Number(number))) else Comment(number)
  }

  function LoopRewrite(s: string): string {
    MarkersAreSensible();
    SubRewritesScan(s, MarkerAt, Comment);
    HitsMatch(Tokens(s), MarkerAt);
    ReplaceAll(s, Hits(Tokens(s)), Renumbered)
  }

  predicate Plain(number: string) {
    AllAsciiDigits(number) && (number != "" && number[0] == '0' ==> number == "0")
  }

  lemma PlainIffReprinted(number: string)
    requires number != "" && AllDigits(number)
    ensures Decimal(Number(number)) == number <==> Plain(number)
  {
    if Plain(number) {
      PlainIsReprinted(number);
    }
  }

  lemma {:induction false} PlainIsReprinted(number: string)
    requires number != "" && AllDigits(number) && Plain(number)
    ensures Decimal(Number(number)) == number
    ensures number[0] != '0' ==> Number(number) > 0
  {
    var init, d := number[..|number| - 1], number[|number| - 1];
    assert number == init + [d];
    assert '0' + DigitValue(d) as char == d;
    if init == "" {
      assert Number(init) == 0;
    } else {
      assert init[0] == number[0];
      PlainIsReprinted(init);
      DecimalSnoc(Number(init), DigitValue(d));
    }
  }

  lemma CommentsClash(d: string, e: string)
    requires AllDigits(d) && AllDigits(e) && d != e
    ensures Clash(Comment(d), Comment(e))
  {
    var h := |COMMENT_HEAD|;
    if k :| 0 <= k < |d| && k < |e| && d[k] != e[k] {
      assert Comment(d)[h + k] == d[k] && Comment(e)[h + k] == e[k];
    } else if |d| < |e| {
      assert Comment(d)[h + |d|] == ' ' && Comment(e)[h + |d|] == e[|d|];
    } else {
      assert Comment(e)[h + |e|] == ' ';
      assert Comment(d)[h + |e|] == d[|e|];
    }
  }

  lemma {:induction false} RewritingsAgreeIff(tokens: seq<Token>, f: string -> string, g: string -> string)
    requires forall t :: t in tokens && t.Hit? ==> f(t.group) == g(t.group) || Clash(f(t.group), g(t.group))
    ensures Rewritten(tokens, f) == Rewritten(tokens, g) <==> forall t :: t in tokens && t.Hit? ==> f(t.group) == g(t.group)
  {
    if tokens != [] {
      var t := tokens[0];
      RewritingsAgreeIff(tokens[1..], f, g);
      if t.Hit? && f(t.group) != g(t.group) {
        var a, b := f(t.group), g(t.group);
        var k :| 0 <= k < |a| && k < |b| && a[k] != b[k];
        assert Rewritten(tokens, f)[k] == a[k] && Rewritten(tokens, g)[k] == b[k];
      } else {
        var first := match t case Char(c) => [c] case Hit(_, group) => f(group);
        assert Rewritten(tokens, f)[|first|..] == Rewritten(tokens[1..], f);
        assert Rewritten(tokens, g)[|first|..] == Rewritten(tokens[1..], g);
      }
    }
  }

  lemma {:induction false} GroupsAreNumbers(tokens: seq<Token>)
    requires Leftmost(tokens, MarkerAt)
    ensures forall t :: t in tokens && t.Hit? ==> t.group != "" && AllDigits(t.group)
  {
    if tokens != [] {
      GroupsAreNumbers(tokens[1..]);
      if tokens[0].Hit? {
        MatchIsMarker(SourceOf(tokens));
      }
    }
  }

  lemma RenumberedIff(number: string)
    requires number != "" && AllDigits(number)
    ensures Renumbered(number) == Comment(number) <==> Plain(number)
    ensures Renumbered(number) == Comment(number) || Clash(Renumbered(number), Comment(number))
  {
    PlainIffReprinted(number);
    var printed := Decimal(Number(number));
    if printed != number {
      CommentsClash(printed, number);
    }
  }

  /** No marker steals from another one when the loop comes to it. */
  ghost predicate MarkersUndisturbed(s: string) {
    Undisturbed(Tokens(s), Hits(Tokens(s)))
  }

  lemma LoopIsRenumbering(s: string)
    requires MarkersUndisturbed(s)
    ensures LoopRewrite(s) == Rewritten(Tokens(s), Renumbered)
  {
    MarkersAreSensible();
    BothAreComments();
    MarkersAreApart(Renumbered);
    LoopEqualsSubIff(s, MarkerAt, Renumbered, '#', '<');
    SubRewritesScan(s, MarkerAt, Renumbered);
  }

  lemma NumbersClash(s: string)
    ensures forall t :: t in Tokens(s) && t.Hit? ==>
              && (Renumbered(t.group) == Comment(t.group) <==> Plain(t.group))
              && (Renumbered(t.group) == Comment(t.group) || Clash(Renumbered(t.group), Comment(t.group)))
  {
    RewriteKeepsText(s);
    GroupsAreNumbers(Tokens(s));
    forall t | t in Tokens(s) && t.Hit?
      ensures Renumbered(t.group) == Comment(t.group) <==> Plain(t.group)
      ensures Renumbered(t.group) == Comment(t.group) || Clash(Renumbered(t.group), Comment(t.group))
    {
      RenumberedIff(t.group);
    }
  }

  lemma DisturbedDiffers(s: string)
    requires !MarkersUndisturbed(s)
    ensures LoopRewrite(s) != Rewrite(s)
  {
    var tokens := Tokens(s);
    MarkersAreSensible();
    BothAreComments();
    MarkersAreApart(Renumbered);
    MarkersAreApart(Comment);
    RewriteKeepsText(s);
    HitsMatch(tokens, MarkerAt);
    LoopState(tokens, Hits(tokens), MarkerAt, Renumbered, '#', '<');
    NumbersClash(s);
    CutDiffers(tokens, MarkerAt, Renumbered, Comment, '#', '<', TextsOf(Hits(tokens)), LoopRewrite(s));
  }

  /** For every text, the substitution and the loop of replacements agree exactly when no
      marker steals from another one, and every page number is written in ASCII digits
      without leading zeros. */
  lemma LoopAgreesIff(s: string)
    ensures LoopRewrite(s) == Rewrite(s) <==>
              MarkersUndisturbed(s) && forall t :: t in Tokens(s) && t.Hit? ==> Plain(t.group)
  {
    if MarkersUndisturbed(s) {
      LoopIsRenumbering(s);
      RewriteKeepsText(s);
      NumbersClash(s);
      RewritingsAgreeIff(Tokens(s), Renumbered, Comment);
    } else {
      DisturbedDiffers(s);
    }
  }

  /** Markers that do not overlap do not steal. */
  lemma ApartIsUndisturbed(s: string)
    requires NoOverlap(s, MarkerAt)
    ensures MarkersUndisturbed(s)
  {
    MarkersAreSensible();
    RewriteKeepsText(s);
    HitsMatch(Tokens(s), MarkerAt);
    NoOverlapIsUndisturbed(Tokens(s), Hits(Tokens(s)), MarkerAt);
  }
}
