/** A document of numbered pages: markers rewritten, the first page comment put in front, and
    the result split at its page comments again. */
module PageSplit {
  import opened Text
  import opened Matching
  import opened PageBreaks

  // ---------------------------------------------------------------- writing

  /** Page texts with the markers the document serializer puts between them. */
  function Document(pages: seq<string>, first: nat): string {
    if pages == [] then ""
    else if |pages| == 1 then pages[0]
    else pages[0] + Marker(Decimal(first), Decimal(first + 1)) + Document(pages[1..], first + 1)
  }

  /** The same with page comments in place of the markers. */
  function Paged(pages: seq<string>, first: nat): string {
    if pages == [] then ""
    else if |pages| == 1 then pages[0]
    else pages[0] + Comment(Decimal(first + 1)) + Paged(pages[1..], first + 1)
  }

  /** Puts the comment of page 1 in front unless the content begins with it. */
  function PostProcess(content: string): string {
    if Comment("1") <= Strip(content) then content else Comment("1") + "\n\n" + content
  }

  // ---------------------------------------------------------------- reading

  /** A complete page comment, tried at the start of `s`. */
  function CommentAt(s: string): Option<(nat, string)> {
    if !(COMMENT_HEAD <= s) then None
    else
      var a := DigitsEnd(s, |COMMENT_HEAD|);
      if a == |COMMENT_HEAD| || !(COMMENT_TAIL <= s[a..]) then None
      else Some((a + |COMMENT_TAIL|, s[|COMMENT_HEAD|..a]))
  }

  /** The text before the first comment, and each comment's number with the text up to the
      next one. */
  function SplitPages(content: string): (string, seq<(string, string)>) {
    CommentsAreSensible();
    Sections(Scan(content, CommentAt))
  }

  function Numbered(pages: seq<string>, first: nat): seq<(string, string)> {
    if pages == [] then [] else [(Decimal(first), pages[0])] + Numbered(pages[1..], first + 1)
  }

  // ---------------------------------------------------------------- the comment pattern

  lemma CommentPieces(number: string, rest: string)
    ensures var s := Comment(number) + rest;
            var a := |COMMENT_HEAD| + |number|;
            COMMENT_HEAD <= s && s[|COMMENT_HEAD|..a] == number && COMMENT_TAIL <= s[a..]
  {
  }

  lemma CommentMatches(number: string, rest: string)
    requires number != "" && AllDigits(number)
    ensures CommentAt(Comment(number) + rest) == Some((|Comment(number)|, number))
  {
    var s := Comment(number) + rest;
    var a := |COMMENT_HEAD| + |number|;
    CommentPieces(number, rest);
    assert s[a] == s[a..][0] == COMMENT_TAIL[0];
    DigitsEndIs(s, |COMMENT_HEAD|, a);
  }

  lemma MatchIsComment(s: string)
    requires CommentAt(s).Some?
    ensures var (n, number) := CommentAt(s).value;
            0 < n <= |s| && number != "" && AllDigits(number) && s[..n] == Comment(number)
  {
    var h := |COMMENT_HEAD|;
    var a := DigitsEnd(s, h);
    var n := a + |COMMENT_TAIL|;
    assert s[a..][..|COMMENT_TAIL|] == s[a..n];
    assert s[..n] == s[..h] + s[h..a] + s[a..n];
  }

  lemma CommentCarries(s: string, t: string)
    ensures Carries(CommentAt, s, t)
  {
    if CommentAt(s).Some? && CommentAt(s).value.0 <= |s| && s[..CommentAt(s).value.0] <= t {
      var (n, number) := CommentAt(s).value;
      MatchIsComment(s);
      assert t == Comment(number) + t[n..];
      CommentMatches(number, t[n..]);
    }
  }

  lemma CommentsAreSensible()
    ensures Sensible(CommentAt)
  {
    forall s | CommentAt(s).Some? ensures 0 < CommentAt(s).value.0 <= |s| {
      MatchIsComment(s);
    }
    forall s, t ensures Carries(CommentAt, s, t) {
      CommentCarries(s, t);
    }
  }

  // ---------------------------------------------------------------- rewriting a document

  /** No page text completes a marker, neither by itself nor with the first three characters
      of the marker that follows it. */
  ghost predicate Separable(pages: seq<string>) {
    pages != [] ==>
      && NoMatch(if |pages| == 1 then pages[0] else pages[0] + "#_#", MarkerAt)
      && Separable(pages[1..])
  }

  lemma NoMarkerStartInside(w: string, g: string, k: nat)
    requires IsMarker(w, g) && 0 < k
    ensures k + 3 < |w| ==> !(w[k] == '#' && w[k + 2] == '#' && w[k + 3] == '_')
  {
    MarkerChars(w, g);
  }

  lemma MarkerStart(prev: string, next: string)
    requires prev != "" && next != "" && AllDigits(prev) && AllDigits(next)
    ensures LooksLikeMarker(Marker(prev, next))
  {
    var m := Marker(prev, next);
    assert IsMarker(m, next);
    MarkerChars(m, next);
    assert m[0] == HEAD[0] && m[1] == HEAD[1] && m[2] == HEAD[2];
  }

  ghost predicate LooksLikeMarker(m: string) {
    |m| > 30 && m[0] == '#' && m[1] == '_' && m[2] == '#' && m[3] == '_'
  }

  /** The first characters of a text that runs into a marker. */
  lemma BoundaryChars(u: string, m: string, rest: string)
    requires LooksLikeMarker(m)
    ensures var s := u + (m + rest);
            && |s| >= |u| + 4 && s[|u|] == '#' && s[|u| + 2] == '#' && s[|u| + 3] == '_'
            && s[..|u| + 3] == u + "#_#"
  {
    var s := u + (m + rest);
    assert s[|u|] == m[0] && s[|u| + 1] == m[1] && s[|u| + 2] == m[2] && s[|u| + 3] == m[3];
    assert s[..|u| + 3] == u + [m[0], m[1], m[2]];
  }

  lemma MarkerEndsAtBoundary(u: string, m: string, rest: string)
    requires u != "" && LooksLikeMarker(m)
    requires MarkerAt(u + (m + rest)).Some?
    ensures MarkerAt(u + (m + rest)).value.0 <= |u| + 3
  {
    var s := u + (m + rest);
    BoundaryChars(u, m, rest);
    MatchIsMarker(s);
    var (n, g) := MarkerAt(s).value;
    var w := s[..n];
    assert forall i :: 0 <= i < n ==> w[i] == s[i];
    NoMarkerStartInside(w, g, |u|);
  }

  /** A marker that begins in a page text and runs into the next marker ends within its
      first three characters. */
  lemma MarkerAcrossBoundary(u: string, m: string, rest: string)
    requires u != "" && LooksLikeMarker(m)
    requires MarkerAt(u + (m + rest)).Some?
    ensures MarkerAt(u + "#_#").Some?
  {
    BoundaryChars(u, m, rest);
    MarkerEndsAtBoundary(u, m, rest);
    ShorterCarries(u + (m + rest), u + "#_#", |u| + 3);
  }

  /** A marker that ends before `k` is there in any text with the same first `k` characters. */
  lemma ShorterCarries(s: string, t: string, k: nat)
    requires MarkerAt(s).Some? && MarkerAt(s).value.0 <= k <= |s| && s[..k] <= t
    ensures MarkerAt(t).Some?
  {
    MatchIsMarker(s);
    assert s[..MarkerAt(s).value.0] == s[..k][..MarkerAt(s).value.0];
    MarkerCarries(s, t);
  }

  lemma MarkerWithinBoundary(u: string, m: string, rest: string)
    requires LooksLikeMarker(m) && MarkerAt(u + "#_#").Some?
    ensures MarkerAt(u + (m + rest)).Some?
  {
    var s, t := u + (m + rest), u + "#_#";
    assert t <= s;
    MatchIsMarker(t);
    MarkerCarries(t, s);
  }

  lemma NoMarkerInLastThree(u: string, j: nat)
    requires |u| <= j <= |u| + 3
    ensures MarkerAt((u + "#_#")[j..]) == None
  {
    var t := (u + "#_#")[j..];
    if MarkerAt(t).Some? {
      MatchIsMarker(t);
      MarkerChars(t[..MarkerAt(t).value.0], MarkerAt(t).value.1);
    }
  }

  lemma MarkerAtBoundary(u: string, m: string, rest: string)
    requires u != "" && LooksLikeMarker(m)
    ensures MarkerAt(u + (m + rest)) == None <==> MarkerAt(u + "#_#") == None
  {
    if MarkerAt(u + "#_#").Some? {
      MarkerWithinBoundary(u, m, rest);
    }
    if MarkerAt(u + (m + rest)).Some? {
      MarkerAcrossBoundary(u, m, rest);
    }
  }

  lemma NoMatchInFront(u: string, tail: string)
    requires forall j :: |u| <= j <= |u + tail| ==> MarkerAt((u + tail)[j..]) == None
    ensures NoMatch(u + tail, MarkerAt) <==> forall j :: 0 <= j < |u| ==> MarkerAt(u[j..] + tail) == None
  {
    assert forall j :: 0 <= j < |u| ==> (u + tail)[j..] == u[j..] + tail;
  }

  /** What follows a page text matters only through its first three characters. */
  lemma NoMarkerIn(u: string, m: string, rest: string)
    requires LooksLikeMarker(m)
    ensures NoMatchIn(u, m + rest, MarkerAt) <==> NoMatch(u + "#_#", MarkerAt)
  {
    NoMatchInMeaning(u, m + rest, MarkerAt);
    forall j | 0 <= j < |u| ensures MarkerAt(u[j..] + (m + rest)) == None <==> MarkerAt(u[j..] + "#_#") == None {
      MarkerAtBoundary(u[j..], m, rest);
    }
    forall j | |u| <= j <= |u + "#_#"| ensures MarkerAt((u + "#_#")[j..]) == None {
      NoMarkerInLastThree(u, j);
    }
    NoMatchInFront(u, "#_#");
  }

  lemma RewriteSegment(u: string, x: string, y: string)
    ensures Rewrite(u + x) == u + y <==> NoMatchIn(u, x, MarkerAt) && Rewrite(x) == y
  {
    MarkersAreSensible();
    BothAreComments();
    MarkersAreApart(Comment);
    SubSegment(u, x, y, MarkerAt, Comment, '#', '<');
  }

  lemma RewriteMarkerFirst(prev: string, next: string, rest: string)
    requires prev != "" && next != "" && AllDigits(prev) && AllDigits(next)
    ensures Rewrite(Marker(prev, next) + rest) == Comment(next) + Rewrite(rest)
  {
    var m := Marker(prev, next);
    MarkersAreSensible();
    MarkerMatches(prev, next, rest);
    assert (m + rest)[|m|..] == rest;
  }

  lemma RewriteLastPage(u: string)
    ensures Rewrite(u) == u <==> NoMatch(u, MarkerAt)
  {
    RewriteSegment(u, "", "");
    NoMatchInMeaning(u, "", MarkerAt);
    assert u + "" == u && Rewrite("") == "";
    assert u[|u|..] == "" && MarkerAt("") == None;
    assert forall j :: 0 <= j < |u| ==> u[j..] + "" == u[j..];
  }

  /** Rewriting turns the markers between the pages into comments, and leaves everything
      else alone, exactly when no page text completes a marker. */
  lemma {:induction false} RewriteDocumentIff(pages: seq<string>, first: nat)
    ensures Rewrite(Document(pages, first)) == Paged(pages, first) <==> Separable(pages)
  {
    if |pages| == 0 {
      assert Rewrite("") == "";
    } else if |pages| == 1 {
      RewriteLastPage(pages[0]);
    } else {
      var u, prev, next := pages[0], Decimal(first), Decimal(first + 1);
      var rest, y := Document(pages[1..], first + 1), Paged(pages[1..], first + 1);
      var m, c := Marker(prev, next), Comment(next);
      RewriteDocumentIff(pages[1..], first + 1);
      MarkerStart(prev, next);
      assert u + m + rest == u + (m + rest) && u + c + y == u + (c + y);
      RewriteSegment(u, m + rest, c + y);
      NoMarkerIn(u, m, rest);
      RewriteMarkerFirst(prev, next, rest);
      assert (c + Rewrite(rest))[|c|..] == Rewrite(rest) && (c + y)[|c|..] == y;
    }
  }

  lemma {:induction false} NewlinesSeparate(pages: seq<string>)
    requires forall i :: 0 <= i < |pages| ==> NoMatch(pages[i], MarkerAt)
    requires forall i :: 0 <= i < |pages| - 1 ==> pages[i] != "" && pages[i][|pages[i]| - 1] == '\n'
    ensures Separable(pages)
  {
    if pages != [] {
      NewlinesSeparate(pages[1..]);
      if |pages| > 1 {
        NewlineStopsMarker(pages[0]);
      }
    }
  }

  lemma EndsBefore(w: string, s: string, e: nat)
    requires w <= s && e < |s| && (e < |w| ==> w[e] != s[e])
    ensures |w| <= e
  {
  }

  lemma MarkerHasNoNewline(s: string)
    requires MarkerAt(s).Some?
    ensures MarkerAt(s).value.0 <= |s| && '\n' !in s[..MarkerAt(s).value.0]
  {
    MatchIsMarker(s);
    MarkerChars(s[..MarkerAt(s).value.0], MarkerAt(s).value.1);
  }

  lemma NewlineStopsMarkerAt(u: string, j: nat)
    requires j < |u| && u[|u| - 1] == '\n' && MarkerAt(u[j..]) == None
    ensures MarkerAt(u[j..] + "#_#") == None
  {
    var v := u[j..];
    var s := v + "#_#";
    if MarkerAt(s).Some? {
      var n := MarkerAt(s).value.0;
      MarkerHasNoNewline(s);
      EndsBefore(s[..n], s, |v| - 1);
      assert s[..n] == v[..n];
      MarkerCarries(s, v);
    }
  }

  lemma NewlineStopsMarker(u: string)
    requires NoMatch(u, MarkerAt) && u != "" && u[|u| - 1] == '\n'
    ensures NoMatch(u + "#_#", MarkerAt)
  {
    forall j | 0 <= j <= |u + "#_#"| ensures MarkerAt((u + "#_#")[j..]) == None {
      if j >= |u| {
        NoMarkerInLastThree(u, j);
      } else {
        NewlineStopsMarkerAt(u, j);
        assert (u + "#_#")[j..] == u[j..] + "#_#";
      }
    }
  }

  // ---------------------------------------------------------------- splitting at the comments

  ghost predicate NoComments(pages: seq<string>) {
    forall i :: 0 <= i < |pages| ==> NoMatch(pages[i], CommentAt)
  }

  /** Pages with a comment in front of each. */
  function Headed(pages: seq<string>, first: nat): string {
    if pages == [] then "" else Comment(Decimal(first)) + (pages[0] + Headed(pages[1..], first + 1))
  }

  lemma {:induction false} HeadPaged(pages: seq<string>, first: nat)
    requires pages != []
    ensures Comment(Decimal(first)) + Paged(pages, first) == Headed(pages, first)
  {
    if |pages| == 1 {
      assert pages[0] + "" == pages[0];
    } else {
      HeadPaged(pages[1..], first + 1);
      var u, c, y := pages[0], Comment(Decimal(first + 1)), Paged(pages[1..], first + 1);
      assert u + c + y == u + (c + y);
    }
  }

  /** What follows a text does not matter if it is another comment. */
  lemma NoCommentIn(u: string, x: string)
    requires x == "" || x[0] == '<'
    ensures NoMatchIn(u, x, CommentAt) <==> NoMatch(u, CommentAt)
  {
    NoMatchInMeaning(u, x, CommentAt);
    forall j | 0 <= j < |u| ensures CommentAt(u[j..] + x) == None <==> CommentAt(u[j..]) == None {
      CommentAcross(u[j..], x);
    }
    assert u[|u|..] == "" && CommentAt("") == None;
  }

  lemma CommentAcross(u: string, x: string)
    requires u != "" && (x == "" || x[0] == '<')
    ensures CommentAt(u + x) == None <==> CommentAt(u) == None
  {
    if CommentAt(u).Some? {
      MatchIsComment(u);
      CommentCarries(u, u + x);
    } else if CommentAt(u + x).Some? {
      var (n, number) := CommentAt(u + x).value;
      MatchIsComment(u + x);
      CommentChars(number);
      if x != "" {
        EndsBefore((u + x)[..n], u + x, |u|);
      }
      assert (u + x)[..n] <= u;
      CommentCarries(u + x, u);
    }
  }

  lemma HeadedStart(pages: seq<string>, first: nat)
    ensures Headed(pages, first) == "" || Headed(pages, first)[0] == '<'
  {
    CommentChars(Decimal(first));
  }

  lemma PrependEmpty(u: string, found: seq<(string, string)>)
    ensures Prepend(u, ("", found)) == (u, found)
  {
    assert u + "" == u;
  }

  lemma ReadFirstPage(number: string, u: string, rest: string, found: seq<(string, string)>)
    requires number != "" && AllDigits(number) && NoMatchIn(u, rest, CommentAt)
    requires SplitPages(rest) == ("", found)
    ensures SplitPages(Comment(number) + (u + rest)) == ("", [(number, u)] + found)
  {
    CommentsAreSensible();
    TextBefore(u, rest, CommentAt);
    PrependEmpty(u, found);
    CommentMatches(number, u + rest);
    MatchBefore(Comment(number), number, u + rest, CommentAt);
  }

  lemma {:induction false} ReadHeaded(pages: seq<string>, first: nat)
    requires NoComments(pages)
    ensures SplitPages(Headed(pages, first)) == ("", Numbered(pages, first))
  {
    if pages != [] {
      ReadHeaded(pages[1..], first + 1);
      HeadedStart(pages[1..], first + 1);
      NoCommentIn(pages[0], Headed(pages[1..], first + 1));
      ReadFirstPage(Decimal(first), pages[0], Headed(pages[1..], first + 1), Numbered(pages[1..], first + 1));
    }
  }

  /** The page texts a split finds hold no comment of their own. */
  lemma {:induction false} SplitTextsHaveNoComment(tokens: seq<Token>)
    requires Leftmost(tokens, CommentAt)
    ensures forall i :: 0 <= i < |Sections(tokens).1| ==> NoMatch(Sections(tokens).1[i].1, CommentAt)
  {
    if tokens != [] {
      SplitTextsHaveNoComment(tokens[1..]);
      if tokens[0].Hit? {
        LeadIsClean(tokens[1..]);
      }
    }
  }

  lemma LeadIsClean(tokens: seq<Token>)
    requires Leftmost(tokens, CommentAt)
    ensures NoMatch(Sections(tokens).0, CommentAt)
  {
    var x := FromFirstHit(tokens);
    LeadHasNoMatch(tokens, CommentAt);
    if x != "" {
      MatchIsComment(x);
      CommentChars(CommentAt(x).value.1);
      assert x[0] == x[..CommentAt(x).value.0][0];
    }
    NoCommentIn(Sections(tokens).0, x);
  }

  lemma {:induction false} NumberedTexts(pages: seq<string>, first: nat)
    ensures |Numbered(pages, first)| == |pages|
    ensures forall i :: 0 <= i < |pages| ==> Numbered(pages, first)[i] == (Decimal(first + i), pages[i])
  {
    if pages != [] {
      NumberedTexts(pages[1..], first + 1);
    }
  }

  /** Page 1 also gets the blank line that is put after its comment. */
  function WithBlankLine(pages: seq<string>): seq<string>
    requires pages != []
  {
    ["\n\n" + pages[0]] + pages[1..]
  }

  lemma BlankLineHoldsNoComment(u: string)
    ensures NoMatch("\n\n" + u, CommentAt) <==> NoMatch(u, CommentAt)
  {
    var t := "\n\n" + u;
    forall j | 0 <= j <= |u| ensures t[j + 2..] == u[j..] {
    }
    assert CommentAt(t[0..]) == None && CommentAt(t[1..]) == None by {
      assert t[0..][0] == '\n' && t[1..][0] == '\n' && COMMENT_HEAD[0] == '<';
    }
    if NoMatch(t, CommentAt) {
      forall j | 0 <= j <= |u| ensures CommentAt(u[j..]) == None {
        assert t[j + 2..] == u[j..];
      }
    }
    if NoMatch(u, CommentAt) {
      forall j | 0 <= j <= |t| ensures CommentAt(t[j..]) == None {
        if j >= 2 {
          assert t[j..] == u[j - 2..];
        }
      }
    }
  }

  lemma CommentPrefix(number: string, s: string)
    requires number != "" && AllDigits(number) && Comment(number) <= s
    ensures CommentAt(s) == Some((|Comment(number)|, number))
  {
    assert s == Comment(number) + s[|Comment(number)|..];
    CommentMatches(number, s[|Comment(number)|..]);
  }

  /** Paged text without comments in its pages does not already begin with page 1. */
  lemma PagedHasNoFirstComment(pages: seq<string>)
    requires pages != [] && NoComments(pages)
    ensures !(Comment("1") <= Strip(Paged(pages, 1)))
  {
    var x := Paged(pages, 1);
    FirstCommentIsNotOne(pages, Indent(x));
    if Comment("1") <= Strip(x) {
      CommentPrefix("1", x[Indent(x)..]);
    }
  }

  /** After a text in which no match begins, the first match is the one that follows it. */
  lemma NextMatch(m: Matcher, u: string, z: string, i: nat)
    requires NoMatchIn(u, z, m) && z != "" && !IsSpace(z[0])
    requires i <= |u + z| && forall j :: 0 <= j < i ==> IsSpace((u + z)[j])
    ensures m((u + z)[i..]).None? || m((u + z)[i..]) == m(z)
  {
    assert (u + z)[|u|] == z[0];
    NoMatchInMeaning(u, z, m);
    if i < |u| {
      assert (u + z)[i..] == u[i..] + z;
    } else {
      assert i == |u| && (u + z)[i..] == z;
    }
  }

  lemma NextComment(u: string, z: string, i: nat)
    requires NoMatch(u, CommentAt) && z != "" && z[0] == '<'
    requires i <= |u + z| && forall j :: 0 <= j < i ==> IsSpace((u + z)[j])
    ensures CommentAt((u + z)[i..]).None? || CommentAt((u + z)[i..]) == CommentAt(z)
  {
    NoCommentIn(u, z);
    NextMatch(CommentAt, u, z, i);
  }

  lemma FirstCommentIsNotOne(pages: seq<string>, i: nat)
    requires pages != [] && NoComments(pages) && i <= |Paged(pages, 1)|
    requires forall j :: 0 <= j < i ==> IsSpace(Paged(pages, 1)[j])
    ensures CommentAt(Paged(pages, 1)[i..]).None? || CommentAt(Paged(pages, 1)[i..]).value.1 != "1"
  {
    if |pages| > 1 {
      var y := Paged(pages[1..], 2);
      var z := Comment("2") + y;
      assert Paged(pages, 1) == pages[0] + z;
      CommentMatches("2", y);
      CommentChars("2");
      NextComment(pages[0], z, i);
    }
  }

  // ---------------------------------------------------------------- main results

  lemma WithBlankLineIsClean(pages: seq<string>)
    requires pages != []
    ensures NoComments(WithBlankLine(pages)) <==> NoComments(pages)
  {
    BlankLineHoldsNoComment(pages[0]);
    FirstPageClean("\n\n" + pages[0], pages[1..]);
    FirstPageClean(pages[0], pages[1..]);
    assert pages == [pages[0]] + pages[1..];
  }

  lemma FirstPageClean(page: string, rest: seq<string>)
    ensures NoComments([page] + rest) <==> NoMatch(page, CommentAt) && NoComments(rest)
  {
    var pages := [page] + rest;
    assert pages[0] == page && forall i :: 0 <= i < |rest| ==> pages[i + 1] == rest[i];
    assert forall i :: 0 < i < |pages| ==> pages[i] == rest[i - 1];
  }

  lemma PostProcessHeads(pages: seq<string>)
    requires pages != [] && NoComments(pages)
    ensures PostProcess(Paged(pages, 1)) == Headed(WithBlankLine(pages), 1)
  {
    PagedHasNoFirstComment(pages);
    BlankLineFirst(pages);
  }

  lemma SplitPaged(pages: seq<string>)
    requires pages != [] && NoComments(pages)
    ensures SplitPages(PostProcess(Paged(pages, 1))) == ("", Numbered(WithBlankLine(pages), 1))
  {
    PostProcessHeads(pages);
    WithBlankLineIsClean(pages);
    ReadHeaded(WithBlankLine(pages), 1);
  }

  lemma SplitIsClean(content: string, found: seq<(string, string)>)
    requires SplitPages(content).1 == found
    ensures forall i :: 0 <= i < |found| ==> NoMatch(found[i].1, CommentAt)
  {
    CommentsAreSensible();
    SubRewritesScan(content, CommentAt, Comment);
    SplitTextsHaveNoComment(Scan(content, CommentAt));
  }

  lemma SplitFindsCleanPages(content: string, pages: seq<string>)
    requires pages != [] && SplitPages(content) == ("", Numbered(WithBlankLine(pages), 1))
    ensures NoComments(pages)
  {
    var pages' := WithBlankLine(pages);
    SplitIsClean(content, Numbered(pages', 1));
    NumberedAreClean(pages', 1);
    WithBlankLineIsClean(pages);
  }

  lemma NumberedAreClean(pages: seq<string>, first: nat)
    requires forall i :: 0 <= i < |Numbered(pages, first)| ==> NoMatch(Numbered(pages, first)[i].1, CommentAt)
    ensures NoComments(pages)
  {
    NumberedTexts(pages, first);
    forall i | 0 <= i < |pages| ensures NoMatch(pages[i], CommentAt) {
      assert Numbered(pages, first)[i].1 == pages[i];
    }
  }

  /** Putting the first comment in front and splitting gives back the page numbers and page
      texts exactly when no page text holds a complete page comment. */
  lemma SplitPagedIff(pages: seq<string>)
    requires pages != []
    ensures SplitPages(PostProcess(Paged(pages, 1))) == ("", Numbered(WithBlankLine(pages), 1)) <==> NoComments(pages)
  {
    if NoComments(pages) {
      SplitPaged(pages);
    }
    if SplitPages(PostProcess(Paged(pages, 1))) == ("", Numbered(WithBlankLine(pages), 1)) {
      SplitFindsCleanPages(PostProcess(Paged(pages, 1)), pages);
    }
  }

  lemma PagedIsHeaded(pages: seq<string>, first: nat)
    requires pages != []
    ensures Paged(pages, first) == pages[0] + Headed(pages[1..], first + 1)
  {
    if |pages| > 1 {
      var c, rest := Comment(Decimal(first + 1)), Paged(pages[1..], first + 1);
      HeadPaged(pages[1..], first + 1);
      assert pages[0] + c + rest == pages[0] + (c + rest);
    } else {
      assert pages[0] + "" == pages[0];
    }
  }

  lemma BlankLineFirst(pages: seq<string>)
    requires pages != []
    ensures Comment(Decimal(1)) + "\n\n" + Paged(pages, 1) == Headed(WithBlankLine(pages), 1)
  {
    assert WithBlankLine(pages)[1..] == pages[1..];
    PagedIsHeaded(pages, 1);
  }

  /** From page texts to Markdown and back: the numbers 1 to n and the texts return. */
  lemma PageRoundTrip(pages: seq<string>)
    requires pages != [] && Separable(pages) && NoComments(pages)
    ensures SplitPages(PostProcess(Rewrite(Document(pages, 1)))) == ("", Numbered(WithBlankLine(pages), 1))
  {
    RewriteDocumentIff(pages, 1);
    SplitPagedIff(pages);
  }

  /** What a split was made from. */
  function Reassembled(lead: string, found: seq<(string, string)>): string
    decreases |found|
  {
    if found == [] then lead else lead + (Comment(found[0].0) + Reassembled(found[0].1, found[1..]))
  }

  lemma LeadFirst(c: string, lead: string, found: seq<(string, string)>)
    ensures Reassembled(c + lead, found) == c + Reassembled(lead, found)
  {
    if found != [] {
      var rest := Comment(found[0].0) + Reassembled(found[0].1, found[1..]);
      assert (c + lead) + rest == c + (lead + rest);
    }
  }

  lemma CommentFirst(number: string, lead: string, found: seq<(string, string)>)
    ensures Reassembled("", [(number, lead)] + found) == Comment(number) + Reassembled(lead, found)
  {
    assert ([(number, lead)] + found)[1..] == found;
    var all := Comment(number) + Reassembled(lead, found);
    assert "" + all == all;
  }

  lemma {:induction false} SectionsReassemble(tokens: seq<Token>)
    requires Leftmost(tokens, CommentAt)
    ensures SourceOf(tokens) == Reassembled(Sections(tokens).0, Sections(tokens).1)
  {
    if tokens != [] {
      SectionsReassemble(tokens[1..]);
      var (lead, found) := Sections(tokens[1..]);
      match tokens[0]
      case Char(c) => LeadFirst([c], lead, found);
      case Hit(text, group) =>
        CommentFirst(group, lead, found);
        MatchIsComment(SourceOf(tokens));
        assert SourceOf(tokens)[..|text|] == text;
    }
  }

  lemma {:induction false} NumberedReassemble(pages: seq<string>, first: nat)
    ensures Reassembled("", Numbered(pages, first)) == Headed(pages, first)
  {
    if pages != [] {
      var rest := Numbered(pages[1..], first + 1);
      NumberedReassemble(pages[1..], first + 1);
      CommentFirst(Decimal(first), pages[0], rest);
      LeadFirst(pages[0], "", rest);
      assert pages[0] + "" == pages[0];
    }
  }

  /** A text is determined by how it splits. */
  lemma SplitDetermines(content: string, pages: seq<string>, first: nat)
    requires SplitPages(content) == ("", Numbered(pages, first))
    ensures content == Headed(pages, first)
  {
    CommentsAreSensible();
    SubRewritesScan(content, CommentAt, Comment);
    SectionsReassemble(Scan(content, CommentAt));
    NumberedReassemble(pages, first);
  }

  /** The round trip works, with the first comment really put in front, exactly for page
      texts that complete no marker and hold no page comment. */
  lemma PageRoundTripIff(pages: seq<string>)
    requires pages != []
    ensures var content := Rewrite(Document(pages, 1));
            !(Comment("1") <= Strip(content)) && SplitPages(PostProcess(content)) == ("", Numbered(WithBlankLine(pages), 1))
            <==> Separable(pages) && NoComments(pages)
  {
    var content := Rewrite(Document(pages, 1));
    RewriteDocumentIff(pages, 1);
    if Separable(pages) && NoComments(pages) {
      PageRoundTrip(pages);
      PagedHasNoFirstComment(pages);
    }
    if !(Comment("1") <= Strip(content)) && SplitPages(PostProcess(content)) == ("", Numbered(WithBlankLine(pages), 1)) {
      SplitFindsCleanPages(PostProcess(content), pages);
      SplitDetermines(PostProcess(content), WithBlankLine(pages), 1);
      BlankLineFirst(pages);
      SameAfter(Comment("1") + "\n\n", content, Paged(pages, 1));
    }
  }

  lemma SameAfter(head: string, a: string, b: string)
    requires head + a == head + b
    ensures a == b
  {
    assert a == (head + a)[|head|..] && b == (head + b)[|head|..];
  }

  // ---------------------------------------------------------------- putting the first comment in front

  /** The comment of page 1 is put in front exactly where the content does not begin with it;
      what it is put in front of stays as it is, with a blank line between. */
  lemma PostProcessIff(content: string)
    ensures PostProcess(content) == content <==> Comment("1") <= Strip(content)
    ensures PostProcess(content) != content ==> PostProcess(content) == Comment("1") + "\n\n" + content
  {
    assert |Comment("1") + "\n\n" + content| == |Comment("1")| + 2 + |content|;
  }

  lemma StripKeepsFront(c: string, x: string)
    requires c != "" && !IsSpace(c[0]) && !IsSpace(c[|c| - 1])
    ensures c <= Strip(c + x)
  {
    assert LStrip(c + x) == c + x;
    RStripKeepsFront(c, x);
  }

  lemma {:induction false} RStripKeepsFront(c: string, x: string)
    requires c != "" && !IsSpace(c[|c| - 1])
    ensures c <= RStrip(c + x)
  {
    if x == "" {
      assert c + x == c;
    } else {
      assert (c + x)[..|c + x| - 1] == c + x[..|x| - 1];
      RStripKeepsFront(c, x[..|x| - 1]);
    }
  }

  lemma CommentEnds(number: string)
    requires AllDigits(number)
    ensures !IsSpace(Comment(number)[0]) && !IsSpace(Comment(number)[|Comment(number)| - 1])
  {
    CommentChars(number);
    var c := Comment(number);
    assert c[|c| - 1] == COMMENT_TAIL[3] == '>';
  }

  /** Content that begins with the comment of page 1, up to whitespace, is left alone. */
  lemma HeadedStays(content: string)
    requires Comment("1") <= content
    ensures PostProcess(content) == content
  {
    var c := Comment("1");
    CommentEnds("1");
    StripKeepsFront(c, content[|c|..]);
    assert content == c + content[|c|..];
  }

  /** So doing it again changes nothing, for every content. */
  lemma PostProcessIsIdempotent(content: string)
    ensures PostProcess(PostProcess(content)) == PostProcess(content)
  {
    PostProcessIff(content);
    if PostProcess(content) != content {
      assert Comment("1") <= PostProcess(content);
      HeadedStays(PostProcess(content));
    }
  }

  /** Pages that already have their comments, the first one included, come back as they are. */
  lemma HeadedRoundTrip(pages: seq<string>)
    requires pages != [] && NoComments(pages)
    ensures PostProcess(Headed(pages, 1)) == Headed(pages, 1)
    ensures SplitPages(PostProcess(Headed(pages, 1))) == ("", Numbered(pages, 1))
  {
    assert Decimal(1) == "1";
    HeadedStays(Headed(pages, 1));
    ReadHeaded(pages, 1);
  }
}
