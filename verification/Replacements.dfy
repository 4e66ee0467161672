/** The loop of `str.replace` calls over the matches of a text, and exactly when it gives what
    the single substitution gives. */
module Replacements {
  import opened Text
  import opened Matching

  // ---------------------------------------------------------------- the loop of replacements

  /** `str.replace` for a pattern that is not empty. */
  function Replace(s: string, old': string, new': string): string
    requires old' != ""
  {
    if s == "" then ""
    else if old' <= s then new' + Replace(s[|old'|..], old', new')
    else [s[0]] + Replace(s[1..], old', new')
  }

  predicate NoneEmpty(hits: seq<(string, string)>) {
    forall k :: 0 <= k < |hits| ==> hits[k].0 != ""
  }

  /** Replaces, for one match of the text after the other, all occurrences of its characters
      in what the loop has made of the text so far. */
  function ReplaceAll(s: string, hits: seq<(string, string)>, f: string -> string): string
    requires NoneEmpty(hits)
  {
    if hits == [] then s
    else
      var (text, group) := hits[|hits| - 1];
      Replace(ReplaceAll(s, hits[..|hits| - 1], f), text, f(group))
  }

  /** The matches of a text with their groups, in order. */
  function Hits(tokens: seq<Token>): seq<(string, string)> {
    if tokens == [] then []
    else if tokens[0].Hit? then [(tokens[0].text, tokens[0].group)] + Hits(tokens[1..])
    else Hits(tokens[1..])
  }

  ghost predicate IsHit(m: Matcher, text: string, group: string) {
    text != "" && m(text) == Some((|text|, group))
  }

  ghost predicate AreHits(m: Matcher, hits: seq<(string, string)>) {
    forall k :: 0 <= k < |hits| ==> IsHit(m, hits[k].0, hits[k].1)
  }

  /** What stands for a token while the loop is under way. */
  function Piece(t: Token, f: string -> string, done: set<string>): string {
    match t
    case Char(c) => [c]
    case Hit(text, group) => if text in done then f(group) else text
  }

  /** The text with the matches in `done` replaced and the others still in place. */
  function Mixed(tokens: seq<Token>, f: string -> string, done: set<string>): string {
    if tokens == [] then "" else Piece(tokens[0], f, done) + Mixed(tokens[1..], f, done)
  }

  // ---------------------------------------------------------------- stealing

  /** The source up to the first match that has been replaced. */
  function Intact(tokens: seq<Token>, done: set<string>): string {
    if tokens == [] then ""
    else match tokens[0]
      case Char(c) => [c] + Intact(tokens[1..], done)
      case Hit(text, _) => if text in done then "" else text + Intact(tokens[1..], done)
  }

  /** `text` begins inside `hit`, which `after` follows. */
  ghost predicate OccursInside(text: string, hit: string, after: string) {
    exists k :: 0 < k < |hit| && text <= (hit + after)[k..]
  }

  /** An occurrence of `text` begins inside another match that has not been replaced, and runs
      into none that has. */
  ghost predicate Steals(tokens: seq<Token>, done: set<string>, text: string) {
    tokens != [] &&
    (Steals(tokens[1..], done, text)
     || (tokens[0].Hit? && tokens[0].text !in done && tokens[0].text != text
         && OccursInside(text, tokens[0].text, Intact(tokens[1..], done))))
  }

  /** No match steals from another one when its turn comes. */
  ghost predicate Undisturbed(tokens: seq<Token>, hits: seq<(string, string)>) {
    hits != [] ==>
      var before := hits[..|hits| - 1];
      Undisturbed(tokens, before) && !Steals(tokens, TextsOf(before), hits[|hits| - 1].0)
  }

  ghost function TextsOf(hits: seq<(string, string)>): set<string> {
    set h | h in hits :: h.0
  }

  lemma {:induction false} IntactIsSource(tokens: seq<Token>, done: set<string>)
    ensures Intact(tokens, done) <= SourceOf(tokens)
  {
    if tokens != [] {
      IntactIsSource(tokens[1..], done);
    }
  }

  lemma PrefixOfSum(u: string, a: string, b: string)
    ensures u <= a + b <==> if |u| <= |a| then u <= a else a <= u && u[|a|..] <= b
  {
    if |u| > |a| && a <= u {
      assert u == a + u[|a|..];
    }
    if u <= a + b {
      assert |u| > |a| ==> u[..|a|] == a && u[|a|..] == (a + b)[|a|..][..|u| - |a|];
    }
  }

  lemma {:induction false} IntactIffMixed(tokens: seq<Token>, m: Matcher, f: string -> string, open: char, guard: char,
                                          done: set<string>, u: string)
    requires Apart(m, f, open, guard) && Leftmost(tokens, m) && guard !in u
    ensures u <= Mixed(tokens, f, done) <==> u <= Intact(tokens, done)
  {
    if tokens != [] {
      if tokens[0].Hit? && tokens[0].text in done {
        assert ApartAt(SourceOf(tokens), m, f, open, guard);
        assert Mixed(tokens, f, done)[0] == guard;
      } else {
        var first := match tokens[0] case Char(c) => [c] case Hit(text, _) => text;
        PrefixOfSum(u, first, Mixed(tokens[1..], f, done));
        PrefixOfSum(u, first, Intact(tokens[1..], done));
        if |first| < |u| {
          IntactIffMixed(tokens[1..], m, f, open, guard, done, u[|first|..]);
        }
      }
    }
  }

  /** Whether `text` begins inside a match is not changed by what replaced ones hold. */
  lemma InsideIffMixed(hit: string, tokens: seq<Token>, k: nat, m: Matcher, f: string -> string, open: char, guard: char,
                       done: set<string>, text: string)
    requires Apart(m, f, open, guard) && Leftmost(tokens, m) && guard !in text && k < |hit|
    ensures text <= (hit + Mixed(tokens, f, done))[k..] <==> text <= (hit + Intact(tokens, done))[k..]
  {
    var a := hit[k..];
    PrefixOfSum(text, a, Mixed(tokens, f, done));
    PrefixOfSum(text, a, Intact(tokens, done));
    if |a| < |text| {
      IntactIffMixed(tokens, m, f, open, guard, done, text[|a|..]);
    }
  }

  // ---------------------------------------------------------------- one replacement

  lemma {:induction false} ReplaceSkips(a: string, rest: string, old': string, new': string)
    requires old' != "" && forall j :: 0 <= j < |a| ==> !(old' <= (a + rest)[j..])
    ensures Replace(a + rest, old', new') == a + Replace(rest, old', new')
  {
    if a == "" {
      assert a + rest == rest;
    } else {
      var s := a + rest;
      assert s[0..] == s && s[1..] == a[1..] + rest;
      forall j | 0 <= j < |a[1..]| ensures !(old' <= (a[1..] + rest)[j..]) {
        assert (a[1..] + rest)[j..] == s[j + 1..];
      }
      ReplaceSkips(a[1..], rest, old', new');
      assert a == [a[0]] + a[1..];
    }
  }

  lemma CommentIsSkipped(comment: string, rest: string, text: string, new': string)
    requires text != "" && text[0] !in comment
    ensures Replace(comment + rest, text, new') == comment + Replace(rest, text, new')
  {
    forall j | 0 <= j < |comment| ensures !(text <= (comment + rest)[j..]) {
      assert (comment + rest)[j..][0] == comment[j];
    }
    ReplaceSkips(comment, rest, text, new');
  }

  /** Where `text` first begins in `a`, or the end of `a`. */
  lemma {:induction false} FirstOccurrence(a: string, rest: string, text: string, new': string) returns (p: nat)
    requires text != ""
    ensures p <= |a| && forall j :: 0 <= j < p ==> !(text <= (a + rest)[j..])
    ensures p < |a| ==> text <= (a + rest)[p..] && a[..p] + new' <= Replace(a + rest, text, new')
    ensures p == |a| ==> Replace(a + rest, text, new') == a + Replace(rest, text, new')
  {
    p := 0;
    while p < |a| && !(text <= (a + rest)[p..])
      invariant p <= |a|
      invariant forall j :: 0 <= j < p ==> !(text <= (a + rest)[j..])
    {
      p := p + 1;
    }
    if p == |a| {
      ReplaceSkips(a, rest, text, new');
    } else {
      assert a + rest == a[..p] + (a + rest)[p..];
      ReplaceSkips(a[..p], (a + rest)[p..], text, new');
    }
  }

  /** What holds of a match text wherever it is found. */
  lemma HitFacts(m: Matcher, f: string -> string, open: char, guard: char, text: string, group: string)
    requires Sensible(m) && Apart(m, f, open, guard) && IsHit(m, text, group)
    ensures text[0] == open && guard !in text && f(group) != "" && f(group)[0] == guard && open !in f(group)
    ensures forall s :: text <= s ==> m(s) == Some((|text|, group))
  {
    assert text[..|text|] == text && ApartAt(text, m, f, open, guard);
    forall s | text <= s ensures m(s) == Some((|text|, group)) {
      assert Carries(m, text, s);
    }
  }

  /** Of the text that remains from a token on, with the match texts in `done` replaced, a
      match can only begin where the token is that match. */
  lemma AtToken(tokens: seq<Token>, m: Matcher, text: string, group: string)
    requires Sensible(m) && IsHit(m, text, group) && tokens != [] && Leftmost(tokens, m)
    requires text <= SourceOf(tokens)
    ensures tokens[0] == Hit(text, group)
  {
    assert Carries(m, text, SourceOf(tokens)) && text[..|text|] == text;
    if tokens[0].Hit? {
      assert SourceOf(tokens)[..|tokens[0].text|] == tokens[0].text;
    }
  }

  lemma InMixedAtToken(tokens: seq<Token>, m: Matcher, f: string -> string, open: char, guard: char,
                       done: set<string>, text: string, group: string)
    requires Sensible(m) && Apart(m, f, open, guard) && IsHit(m, text, group)
    requires tokens != [] && Leftmost(tokens, m) && text <= Mixed(tokens, f, done)
    ensures tokens[0] == Hit(text, group)
  {
    HitFacts(m, f, open, guard, text, group);
    IntactIffMixed(tokens, m, f, open, guard, done, text);
    IntactIsSource(tokens, done);
    AtToken(tokens, m, text, group);
  }

  lemma HeadHit(tokens: seq<Token>, m: Matcher)
    requires Sensible(m) && tokens != [] && tokens[0].Hit? && Leftmost(tokens, m)
    ensures IsHit(m, tokens[0].text, tokens[0].group)
  {
    assert SourceOf(tokens)[..|tokens[0].text|] == tokens[0].text;
    assert Carries(m, SourceOf(tokens), tokens[0].text);
  }

  /** Replacing one match text that steals nothing. */
  lemma {:induction false} ReplaceInMixed(tokens: seq<Token>, m: Matcher, f: string -> string, open: char, guard: char,
                                          done: set<string>, text: string, group: string)
    requires Sensible(m) && Apart(m, f, open, guard) && IsHit(m, text, group)
    requires Leftmost(tokens, m) && !Steals(tokens, done, text)
    ensures Replace(Mixed(tokens, f, done), text, f(group)) == Mixed(tokens, f, done + {text})
  {
    if tokens != [] {
      var rest := Mixed(tokens[1..], f, done);
      ReplaceInMixed(tokens[1..], m, f, open, guard, done, text, group);
      HeadUnlessStolen(tokens, m, f, open, guard, done, text, group);
    }
  }

  /** What a replacement does at the first token, unless it steals from it. */
  lemma HeadUnlessStolen(tokens: seq<Token>, m: Matcher, f: string -> string, open: char, guard: char,
                         done: set<string>, text: string, group: string)
    requires Sensible(m) && Apart(m, f, open, guard) && IsHit(m, text, group) && tokens != [] && Leftmost(tokens, m)
    requires tokens[0].Hit? && tokens[0].text !in done && tokens[0].text != text ==>
               !OccursInside(text, tokens[0].text, Intact(tokens[1..], done))
    ensures Replace(Mixed(tokens, f, done), text, f(group)) == Piece(tokens[0], f, done + {text}) + Replace(Mixed(tokens[1..], f, done), text, f(group))
  {
    var rest := Mixed(tokens[1..], f, done);
    HitFacts(m, f, open, guard, text, group);
    match tokens[0]
    case Char(c) =>
      if text <= Mixed(tokens, f, done) {
        InMixedAtToken(tokens, m, f, open, guard, done, text, group);
      }
      assert ([c] + rest)[1..] == rest;
    case Hit(text', group') =>
      HeadHit(tokens, m);
      HitFacts(m, f, open, guard, text', group');
      if text' in done {
        CommentIsSkipped(f(group'), rest, text, f(group));
      } else if text' == text {
        assert (text + rest)[|text|..] == rest;
      } else {
        forall j | 0 <= j < |text'| ensures !(text <= (text' + rest)[j..]) {
          InsideIffMixed(text', tokens[1..], j, m, f, open, guard, done, text);
          assert j == 0 ==> (text' + rest)[j..] == Mixed(tokens, f, done);
          if j == 0 && text <= Mixed(tokens, f, done) {
            InMixedAtToken(tokens, m, f, open, guard, done, text, group);
          }
        }
        ReplaceSkips(text', rest, text, f(group));
      }
  }

  // ---------------------------------------------------------------- a match that was stolen from

  /** The text has lost the rest of some match that it begins to spell: a replacement, with
      `guard`, stands in its middle.  Before that, it is as it should be. */
  ghost predicate IsCut(tokens: seq<Token>, f: string -> string, done: set<string>, guard: char, c: string) {
    tokens != [] &&
    ((tokens[0].Hit? && CutsHit(tokens[0].text, guard, c))
     || (Piece(tokens[0], f, done) <= c && IsCut(tokens[1..], f, done, guard, c[|Piece(tokens[0], f, done)|..])))
  }

  ghost predicate CutsHit(hit: string, guard: char, c: string) {
    exists k :: 0 < k < |hit| && k < |c| && c[..k] == hit[..k] && c[k] == guard
  }

  lemma BeforeCut(hit: string, guard: char, c: string, u: string)
    requires CutsHit(hit, guard, c) && u <= c && guard !in u
    ensures u <= hit
  {
    var k :| 0 < k < |hit| && k < |c| && c[..k] == hit[..k] && c[k] == guard;
    assert forall i :: 0 <= i < |u| ==> u[i] == c[i];
    assert |u| <= k;
    assert u == c[..k][..|u|] == hit[..k][..|u|];
  }

  lemma RestIsPrefix(u: string, first: string, c: string)
    requires u <= c && first <= c && |first| < |u|
    ensures u[|first|..] <= c[|first|..]
  {
  }

  lemma LongerPrefix(u: string, first: string, c: string, after: string)
    requires u <= c && first <= c && (|first| < |u| ==> u[|first|..] <= after)
    ensures u <= first + after
  {
    if |first| < |u| {
      assert u == first + u[|first|..];
    }
  }

  lemma {:induction false} CutPrefix(tokens: seq<Token>, m: Matcher, f: string -> string, open: char, guard: char,
                                     done: set<string>, c: string, u: string)
    requires Apart(m, f, open, guard) && Leftmost(tokens, m)
    requires IsCut(tokens, f, done, guard, c) && u <= c && guard !in u
    ensures u <= SourceOf(tokens)
  {
    var first := match tokens[0] case Char(ch) => [ch] case Hit(text, _) => text;
    var piece := Piece(tokens[0], f, done);
    if tokens[0].Hit? && CutsHit(tokens[0].text, guard, c) {
      BeforeCut(first, guard, c, u);
    } else if tokens[0].Hit? && tokens[0].text in done {
      assert ApartAt(SourceOf(tokens), m, f, open, guard);
      assert c[0] == piece[0] == guard;
    } else {
      if |first| < |u| {
        RestIsPrefix(u, first, c);
        CutPrefix(tokens[1..], m, f, open, guard, done, c[|first|..], u[|first|..]);
      }
      LongerPrefix(u, first, c, SourceOf(tokens[1..]));
    }
  }

  lemma InCutAtToken(tokens: seq<Token>, m: Matcher, f: string -> string, open: char, guard: char,
                     done: set<string>, c: string, text: string, group: string)
    requires Sensible(m) && Apart(m, f, open, guard) && IsHit(m, text, group)
    requires Leftmost(tokens, m) && IsCut(tokens, f, done, guard, c) && text <= c
    ensures tokens[0] == Hit(text, group)
  {
    HitFacts(m, f, open, guard, text, group);
    CutPrefix(tokens, m, f, open, guard, done, c, text);
    AtToken(tokens, m, text, group);
  }

  /** A replacement that begins inside a match cuts it. */
  lemma ReplacedInside(hit: string, rest: string, text: string, new': string, guard: char)
    requires text != "" && new' != "" && new'[0] == guard
    requires !(text <= hit + rest) && OccursInside(text, hit, rest)
    ensures CutsHit(hit, guard, Replace(hit + rest, text, new'))
  {
    var p := FirstOccurrence(hit, rest, text, new');
    var c := Replace(hit + rest, text, new');
    assert (hit + rest)[0..] == hit + rest;
    assert 0 < p < |hit|;
    assert c[..p] == (hit[..p] + new')[..p] == hit[..p] && c[p] == new'[0];
  }

  /** A cut match stays cut. */
  lemma CutHitStays(hit: string, c: string, text: string, new': string, guard: char)
    requires text != "" && text[0] != guard && guard !in text && new' != "" && new'[0] == guard
    requires CutsHit(hit, guard, c) && !(text <= c)
    ensures CutsHit(hit, guard, Replace(c, text, new'))
  {
    var k :| 0 < k < |hit| && k < |c| && c[..k] == hit[..k] && c[k] == guard;
    var a, rest := c[..k], c[k..];
    assert c == a + rest && (a + rest)[0..] == c;
    var p := FirstOccurrence(a, rest, text, new');
    var c' := Replace(c, text, new');
    if p < k {
      assert p > 0;
      assert c'[..p] == (a[..p] + new')[..p] == a[..p] == hit[..p] && c'[p] == new'[0];
    } else {
      assert Replace(rest, text, new')[0] == guard;
      assert c'[..k] == a && c'[k] == guard;
    }
  }

  lemma SkippedOrCut(hit: string, rest: string, text: string, new': string, guard: char)
    requires text != "" && new' != "" && new'[0] == guard && !(text <= hit + rest)
    ensures Replace(hit + rest, text, new') == hit + Replace(rest, text, new') || CutsHit(hit, guard, Replace(hit + rest, text, new'))
  {
    if OccursInside(text, hit, rest) {
      ReplacedInside(hit, rest, text, new', guard);
    } else {
      assert (hit + rest)[0..] == hit + rest;
      ReplaceSkips(hit, rest, text, new');
    }
  }

  /** What a replacement does at the first token of a cut text that is not cut there. */
  lemma PieceOfCut(tokens: seq<Token>, m: Matcher, f: string -> string, open: char, guard: char,
                   done: set<string>, c: string, text: string, group: string)
    requires Sensible(m) && Apart(m, f, open, guard) && open != guard && IsHit(m, text, group)
    requires Leftmost(tokens, m) && IsCut(tokens, f, done, guard, c)
    requires Piece(tokens[0], f, done) <= c
    ensures var rest := c[|Piece(tokens[0], f, done)|..];
            Replace(c, text, f(group)) == Piece(tokens[0], f, done + {text}) + Replace(rest, text, f(group))
            || (tokens[0].Hit? && CutsHit(tokens[0].text, guard, Replace(c, text, f(group))))
  {
    var piece := Piece(tokens[0], f, done);
    var rest := c[|piece|..];
    assert c == piece + rest;
    HitFacts(m, f, open, guard, text, group);
    if text <= c {
      InCutAtToken(tokens, m, f, open, guard, done, c, text, group);
    }
    match tokens[0]
    case Char(ch) =>
      assert c[1..] == rest;
    case Hit(text', group') =>
      HeadHit(tokens, m);
      HitFacts(m, f, open, guard, text', group');
      if text' in done {
        CommentIsSkipped(f(group'), rest, text, f(group));
      } else if text' == text {
        assert (text + rest)[|text|..] == rest;
      } else {
        SkippedOrCut(text', rest, text, f(group), guard);
      }
  }

  lemma {:induction false} ReplaceInCut(tokens: seq<Token>, m: Matcher, f: string -> string, open: char, guard: char,
                                        done: set<string>, c: string, text: string, group: string)
    requires Sensible(m) && Apart(m, f, open, guard) && open != guard && IsHit(m, text, group)
    requires Leftmost(tokens, m) && IsCut(tokens, f, done, guard, c)
    ensures IsCut(tokens, f, done + {text}, guard, Replace(c, text, f(group)))
  {
    HitFacts(m, f, open, guard, text, group);
    if tokens[0].Hit? && CutsHit(tokens[0].text, guard, c) {
      if text <= c {
        InCutAtToken(tokens, m, f, open, guard, done, c, text, group);
        NotIfCut(text, guard, c);
      }
      CutHitStays(tokens[0].text, c, text, f(group), guard);
    } else {
      PieceOfCut(tokens, m, f, open, guard, done, c, text, group);
      var rest := c[|Piece(tokens[0], f, done)|..];
      ReplaceInCut(tokens[1..], m, f, open, guard, done, rest, text, group);
      var piece := Piece(tokens[0], f, done + {text});
      assert (piece + Replace(rest, text, f(group)))[|piece|..] == Replace(rest, text, f(group));
    }
  }

  lemma NotIfCut(hit: string, guard: char, c: string)
    requires guard !in hit && CutsHit(hit, guard, c)
    ensures !(hit <= c)
  {
    var k :| 0 < k < |hit| && k < |c| && c[..k] == hit[..k] && c[k] == guard;
    assert hit[k] != guard;
  }

  /** A replacement that steals leaves a cut text. */
  lemma {:induction false} StealingCuts(tokens: seq<Token>, m: Matcher, f: string -> string, open: char, guard: char,
                                        done: set<string>, text: string, group: string)
    requires Sensible(m) && Apart(m, f, open, guard) && IsHit(m, text, group)
    requires Leftmost(tokens, m) && Steals(tokens, done, text)
    ensures IsCut(tokens, f, done + {text}, guard, Replace(Mixed(tokens, f, done), text, f(group)))
  {
    var rest := Mixed(tokens[1..], f, done);
    HitFacts(m, f, open, guard, text, group);
    if tokens[0].Hit? && tokens[0].text !in done && tokens[0].text != text
       && OccursInside(text, tokens[0].text, Intact(tokens[1..], done)) {
      var hit := tokens[0].text;
      var k :| 0 < k < |hit| && text <= (hit + Intact(tokens[1..], done))[k..];
      InsideIffMixed(hit, tokens[1..], k, m, f, open, guard, done, text);
      if text <= hit + rest {
        InMixedAtToken(tokens, m, f, open, guard, done, text, group);
      }
      ReplacedInside(hit, rest, text, f(group), guard);
    } else {
      HeadUnlessStolen(tokens, m, f, open, guard, done, text, group);
      StealingCuts(tokens[1..], m, f, open, guard, done, text, group);
      var piece := Piece(tokens[0], f, done + {text});
      assert (piece + Replace(rest, text, f(group)))[|piece|..] == Replace(rest, text, f(group));
    }
  }

  // ---------------------------------------------------------------- the whole loop

  lemma {:induction false} MixedOfNone(tokens: seq<Token>, f: string -> string)
    ensures Mixed(tokens, f, {}) == SourceOf(tokens)
  {
    if tokens != [] {
      MixedOfNone(tokens[1..], f);
    }
  }

  lemma {:induction false} MixedOfAll(tokens: seq<Token>, f: string -> string, done: set<string>)
    requires TextsOf(Hits(tokens)) <= done
    ensures Mixed(tokens, f, done) == Rewritten(tokens, f)
  {
    if tokens != [] {
      if tokens[0].Hit? {
        assert Hits(tokens) == [(tokens[0].text, tokens[0].group)] + Hits(tokens[1..]);
        assert (tokens[0].text, tokens[0].group) in Hits(tokens);
      }
      assert forall h :: h in Hits(tokens[1..]) ==> h in Hits(tokens);
      MixedOfAll(tokens[1..], f, done);
    }
  }

  lemma {:induction false} HitsMatch(tokens: seq<Token>, m: Matcher)
    requires Sensible(m) && Leftmost(tokens, m)
    ensures AreHits(m, Hits(tokens)) && NoneEmpty(Hits(tokens))
  {
    if tokens != [] {
      HitsMatch(tokens[1..], m);
      if tokens[0].Hit? {
        var text := tokens[0].text;
        assert SourceOf(tokens)[..|text|] == text;
        assert Carries(m, SourceOf(tokens), text);
      }
    }
  }

  lemma TextsOfSnoc(hits: seq<(string, string)>, hit: (string, string))
    ensures TextsOf(hits + [hit]) == TextsOf(hits) + {hit.0}
  {
    assert forall h :: h in hits + [hit] <==> h in hits || h == hit;
  }

  /** While nothing steals, the loop has replaced exactly the matches it has come to; once
      something has, a match is cut for good. */
  lemma {:induction false} LoopState(tokens: seq<Token>, hits: seq<(string, string)>, m: Matcher, f: string -> string,
                                     open: char, guard: char)
    requires Sensible(m) && Apart(m, f, open, guard) && open != guard
    requires Leftmost(tokens, m) && AreHits(m, hits) && NoneEmpty(hits)
    ensures var c := ReplaceAll(SourceOf(tokens), hits, f);
            if Undisturbed(tokens, hits) then c == Mixed(tokens, f, TextsOf(hits))
            else IsCut(tokens, f, TextsOf(hits), guard, c)
  {
    if hits == [] {
      MixedOfNone(tokens, f);
      assert TextsOf(hits) == {};
    } else {
      var before, last := hits[..|hits| - 1], hits[|hits| - 1];
      LoopState(tokens, before, m, f, open, guard);
      assert hits == before + [last];
      TextsOfSnoc(before, last);
      if !Undisturbed(tokens, before) {
        ReplaceInCut(tokens, m, f, open, guard, TextsOf(before), ReplaceAll(SourceOf(tokens), before, f), last.0, last.1);
      } else if Steals(tokens, TextsOf(before), last.0) {
        StealingCuts(tokens, m, f, open, guard, TextsOf(before), last.0, last.1);
      } else {
        ReplaceInMixed(tokens, m, f, open, guard, TextsOf(before), last.0, last.1);
      }
    }
  }

  /** Two texts that differ within both. */
  ghost predicate Clash(a: string, b: string) {
    exists k :: 0 <= k < |a| && k < |b| && a[k] != b[k]
  }

  /** A cut text is not the result of any substitution whose replacements are the loop's or
      clash with them. */
  lemma {:induction false} CutDiffers(tokens: seq<Token>, m: Matcher, f: string -> string, g: string -> string,
                                      open: char, guard: char, done: set<string>, c: string)
    requires Sensible(m) && Apart(m, f, open, guard) && Apart(m, g, open, guard) && open != guard
    requires Leftmost(tokens, m) && IsCut(tokens, f, done, guard, c) && TextsOf(Hits(tokens)) <= done
    requires forall t :: t in tokens && t.Hit? ==> f(t.group) == g(t.group) || Clash(f(t.group), g(t.group))
    ensures c != Rewritten(tokens, g)
  {
    var t, piece := tokens[0], Piece(tokens[0], f, done);
    if t.Hit? {
      HeadHit(tokens, m);
      HitFacts(m, g, open, guard, t.text, t.group);
      assert Hits(tokens)[0] == (t.text, t.group);
      assert (t.text, t.group) in Hits(tokens);
    }
    if t.Hit? && CutsHit(t.text, guard, c) {
      assert c[0] == t.text[0] == open && Rewritten(tokens, g)[0] == guard;
    } else if t.Hit? && f(t.group) != g(t.group) {
      var k :| 0 <= k < |f(t.group)| && k < |g(t.group)| && f(t.group)[k] != g(t.group)[k];
      assert c[k] == f(t.group)[k] && Rewritten(tokens, g)[k] == g(t.group)[k];
    } else {
      assert forall h :: h in Hits(tokens[1..]) ==> h in Hits(tokens);
      CutDiffers(tokens[1..], m, f, g, open, guard, done, c[|piece|..]);
      assert Rewritten(tokens, g) == piece + Rewritten(tokens[1..], g);
      assert Rewritten(tokens, g)[|piece|..] == Rewritten(tokens[1..], g);
    }
  }

  /** No match begins inside another one. */
  ghost predicate NoOverlap(s: string, m: Matcher) {
    forall i, j :: 0 <= i < j <= |s| && m(s[i..]).Some? && j < i + m(s[i..]).value.0 ==> m(s[j..]) == None
  }

  lemma {:induction false} NothingStolen(tokens: seq<Token>, m: Matcher, done: set<string>, text: string, group: string)
    requires Sensible(m) && IsHit(m, text, group)
    requires Leftmost(tokens, m) && NoOverlap(SourceOf(tokens), m)
    ensures !Steals(tokens, done, text)
  {
    if tokens != [] {
      var s, rest := SourceOf(tokens), SourceOf(tokens[1..]);
      NoOverlapInRest(s, |s| - |rest|, m);
      assert s[|s| - |rest|..] == rest;
      NothingStolen(tokens[1..], m, done, text, group);
      if tokens[0].Hit? {
        IntactIsSource(tokens[1..], done);
        NotInside(tokens[0].text, Intact(tokens[1..], done), rest, m, tokens[0].group, text, group);
      }
    }
  }

  lemma NoOverlapInRest(s: string, n: nat, m: Matcher)
    requires n <= |s| && NoOverlap(s, m)
    ensures NoOverlap(s[n..], m)
  {
    var rest := s[n..];
    forall i, j | 0 <= i < j <= |rest| && m(rest[i..]).Some? && j < i + m(rest[i..]).value.0 ensures m(rest[j..]) == None {
      assert s[i + n..] == rest[i..] && s[j + n..] == rest[j..];
    }
  }

  lemma NotInside(hit: string, after: string, rest: string, m: Matcher, g: string, text: string, group: string)
    requires Sensible(m) && IsHit(m, text, group) && m(hit + rest) == Some((|hit|, g))
    requires after <= rest && NoOverlap(hit + rest, m)
    ensures !OccursInside(text, hit, after)
  {
    var s := hit + rest;
    assert s[0..] == s && text[..|text|] == text;
    forall k | 0 < k < |hit| ensures !(text <= (hit + after)[k..]) {
      assert m(s[k..]) == None;
      assert Carries(m, text, s[k..]);
      assert hit[k..] + after <= hit[k..] + rest;
    }
  }

  /** In particular, matches that do not overlap do not steal. */
  lemma {:induction false} NoOverlapIsUndisturbed(tokens: seq<Token>, hits: seq<(string, string)>, m: Matcher)
    requires Sensible(m) && Leftmost(tokens, m) && NoOverlap(SourceOf(tokens), m) && AreHits(m, hits)
    ensures Undisturbed(tokens, hits)
  {
    if hits != [] {
      var last := hits[|hits| - 1];
      NoOverlapIsUndisturbed(tokens, hits[..|hits| - 1], m);
      NothingStolen(tokens, m, TextsOf(hits[..|hits| - 1]), last.0, last.1);
    }
  }

  /** Replacing the occurrences of one match after the other gives what the single
      substitution gives exactly when no match steals from another one when its turn comes. */
  lemma LoopEqualsSubIff(s: string, m: Matcher, f: string -> string, open: char, guard: char)
    requires Sensible(m) && Apart(m, f, open, guard) && open != guard
    ensures NoneEmpty(Hits(Scan(s, m)))
    ensures ReplaceAll(s, Hits(Scan(s, m)), f) == Sub(s, m, f) <==> Undisturbed(Scan(s, m), Hits(Scan(s, m)))
  {
    var tokens := Scan(s, m);
    SubRewritesScan(s, m, f);
    HitsMatch(tokens, m);
    LoopState(tokens, Hits(tokens), m, f, open, guard);
    if Undisturbed(tokens, Hits(tokens)) {
      MixedOfAll(tokens, f, TextsOf(Hits(tokens)));
    } else {
      CutDiffers(tokens, m, f, f, open, guard, TextsOf(Hits(tokens)), ReplaceAll(s, Hits(tokens), f));
    }
  }
}
