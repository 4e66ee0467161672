/** Substitution by a pattern, for any pattern whose match is decided by the characters it
    covers: `re.sub` as a scan for leftmost matches without overlap. */
module Matching {
  import opened Text

  /** A pattern tried at the start of a string: the length of its match and the text of its
      captured group. */
  type Matcher = string -> Option<(nat, string)>

  /** If `s` has a match and `t` begins with its characters, `t` has the same match. */
  ghost predicate Carries(m: Matcher, s: string, t: string) {
    m(s).Some? && m(s).value.0 <= |s| && s[..m(s).value.0] <= t ==> m(t) == m(s)
  }

  /** A match is not empty and depends on the matched characters only. */
  ghost predicate Sensible(m: Matcher) {
    && (forall s :: m(s).Some? ==> 0 < m(s).value.0 <= |s|)
    && (forall s, t :: Carries(m, s, t))
  }

  /** `re.sub`, with `f` giving the replacement for the captured group. */
  function Sub(s: string, m: Matcher, f: string -> string): string
    requires Sensible(m)
  {
    if s == "" then ""
    else match m(s) {
      case Some((n, group)) => f(group) + Sub(s[n..], m, f)
      case None => [s[0]] + Sub(s[1..], m, f)
    }
  }

  // ---------------------------------------------------------------- tokens

  /** A text cut into matches and the characters between them. */
  datatype Token = Char(c: char) | Hit(text: string, group: string)

  function Scan(s: string, m: Matcher): seq<Token>
    requires Sensible(m)
  {
    if s == "" then []
    else match m(s) {
      case Some((n, group)) => [Hit(s[..n], group)] + Scan(s[n..], m)
      case None => [Char(s[0])] + Scan(s[1..], m)
    }
  }

  function SourceOf(tokens: seq<Token>): string {
    if tokens == [] then ""
    else (match tokens[0] case Char(c) => [c] case Hit(text, _) => text) + SourceOf(tokens[1..])
  }

  /** Every character kept, every match replaced. */
  function Rewritten(tokens: seq<Token>, f: string -> string): string {
    if tokens == [] then ""
    else (match tokens[0] case Char(c) => [c] case Hit(_, group) => f(group)) + Rewritten(tokens[1..], f)
  }

  /** The cut is leftmost: no match begins at a character that was kept. */
  ghost predicate Leftmost(tokens: seq<Token>, m: Matcher) {
    tokens != [] ==>
      && (match tokens[0]
          case Char(_) => m(SourceOf(tokens)) == None
          case Hit(text, group) => text != "" && m(SourceOf(tokens)) == Some((|text|, group)))
      && Leftmost(tokens[1..], m)
  }

  /** A substitution keeps all text between the matches verbatim and puts the captured
      groups in their place, in order. */
  lemma {:induction false} SubRewritesScan(s: string, m: Matcher, f: string -> string)
    requires Sensible(m)
    ensures SourceOf(Scan(s, m)) == s && Leftmost(Scan(s, m), m)
    ensures Sub(s, m, f) == Rewritten(Scan(s, m), f)
  {
    if s != "" {
      match m(s)
      case Some((n, group)) =>
        SubRewritesScan(s[n..], m, f);
        assert Scan(s, m) == [Hit(s[..n], group)] + Scan(s[n..], m);
        assert s[..n] + s[n..] == s;
      case None =>
        SubRewritesScan(s[1..], m, f);
        assert Scan(s, m) == [Char(s[0])] + Scan(s[1..], m);
        assert [s[0]] + s[1..] == s;
    }
  }

  /** There is only one leftmost cut of a text. */
  lemma {:induction false} LeftmostIsScan(tokens: seq<Token>, m: Matcher)
    requires Sensible(m) && Leftmost(tokens, m)
    ensures Scan(SourceOf(tokens), m) == tokens
  {
    if tokens != [] {
      LeftmostIsScan(tokens[1..], m);
      var rest := SourceOf(tokens[1..]);
      assert [tokens[0]] + tokens[1..] == tokens;
      match tokens[0]
      case Char(c) => assert ([c] + rest)[1..] == rest;
      case Hit(text, _) => assert (text + rest)[|text|..] == rest && (text + rest)[..|text|] == text;
    }
  }

  // ---------------------------------------------------------------- nothing is left to replace

  ghost predicate NoMatch(s: string, m: Matcher) {
    forall i :: 0 <= i <= |s| ==> m(s[i..]) == None
  }

  ghost predicate ApartAt(s: string, m: Matcher, f: string -> string, open: char, guard: char) {
    m(s).Some? && m(s).value.0 <= |s| ==>
      && |s| > 0 && s[0] == open
      && guard !in s[..m(s).value.0]
      && |f(m(s).value.1)| > 0 && f(m(s).value.1)[0] == guard
      && open !in f(m(s).value.1)
  }

  /** Matches begin with `open` and do not hold `guard`; replacements begin with `guard` and
      do not hold `open`. */
  ghost predicate Apart(m: Matcher, f: string -> string, open: char, guard: char) {
    forall s :: ApartAt(s, m, f, open, guard)
  }

  /** The rewritten text agrees with the source up to its first `guard`. */
  lemma {:induction false} RewrittenPrefix(tokens: seq<Token>, m: Matcher, f: string -> string, open: char, guard: char, u: string)
    requires Sensible(m) && Apart(m, f, open, guard) && Leftmost(tokens, m)
    requires u <= Rewritten(tokens, f) && guard !in u
    ensures u <= SourceOf(tokens)
  {
    if tokens != [] && tokens[0].Hit? {
      assert ApartAt(SourceOf(tokens), m, f, open, guard);
      assert Rewritten(tokens, f)[0] == guard;
    } else if u != "" {
      assert u[1..] <= Rewritten(tokens[1..], f);
      RewrittenPrefix(tokens[1..], m, f, open, guard, u[1..]);
    }
  }

  lemma NoMatchAtFirst(tokens: seq<Token>, i: nat, m: Matcher, f: string -> string, open: char, guard: char)
    requires Sensible(m) && Apart(m, f, open, guard) && Leftmost(tokens, m)
    requires tokens != [] && i < |Rewritten(tokens, f)| - |Rewritten(tokens[1..], f)|
    ensures m(Rewritten(tokens, f)[i..]) == None
  {
    var out := Rewritten(tokens, f);
    var suffix := out[i..];
    assert ApartAt(suffix, m, f, open, guard);
    if tokens[0].Hit? {
      assert ApartAt(SourceOf(tokens), m, f, open, guard);
      assert suffix[0] == f(tokens[0].group)[i];
    } else if m(suffix).Some? {
      assert suffix == out;
      RewrittenPrefix(tokens, m, f, open, guard, suffix[..m(suffix).value.0]);
      assert Carries(m, suffix, SourceOf(tokens));
    }
  }

  lemma {:induction false} NoMatchInRewritten(tokens: seq<Token>, m: Matcher, f: string -> string, open: char, guard: char)
    requires Sensible(m) && Apart(m, f, open, guard) && Leftmost(tokens, m)
    ensures NoMatch(Rewritten(tokens, f), m)
  {
    var out := Rewritten(tokens, f);
    if tokens != [] {
      NoMatchInRewritten(tokens[1..], m, f, open, guard);
      var rest := Rewritten(tokens[1..], f);
      var k := |out| - |rest|;
      forall i | 0 <= i <= |out| ensures m(out[i..]) == None {
        if i >= k {
          assert out[i..] == rest[i - k..];
        } else {
          NoMatchAtFirst(tokens, i, m, f, open, guard);
        }
      }
    }
  }

  lemma {:induction false} NothingToReplace(s: string, m: Matcher, f: string -> string)
    requires Sensible(m) && NoMatch(s, m)
    ensures Sub(s, m, f) == s
  {
    if s != "" {
      assert s[0..] == s;
      forall i | 0 <= i <= |s[1..]| ensures m(s[1..][i..]) == None {
        assert s[1..][i..] == s[i + 1..];
      }
      NothingToReplace(s[1..], m, f);
      assert [s[0]] + s[1..] == s;
    }
  }

  /** A substitution leaves no complete match behind and is therefore idempotent. */
  lemma SubIsIdempotent(s: string, m: Matcher, f: string -> string, open: char, guard: char)
    requires Sensible(m) && Apart(m, f, open, guard)
    ensures NoMatch(Sub(s, m, f), m)
    ensures Sub(Sub(s, m, f), m, f) == Sub(s, m, f)
  {
    SubRewritesScan(s, m, f);
    NoMatchInRewritten(Scan(s, m), m, f, open, guard);
    NothingToReplace(Sub(s, m, f), m, f);
  }

  // ---------------------------------------------------------------- a text in front of another

  /** No match begins in `u` when `x` follows it. */
  ghost predicate NoMatchIn(u: string, x: string, m: Matcher) {
    u != "" ==> m(u + x) == None && NoMatchIn(u[1..], x, m)
  }

  lemma {:induction false} NoMatchInMeaning(u: string, x: string, m: Matcher)
    ensures NoMatchIn(u, x, m) <==> forall j :: 0 <= j < |u| ==> m(u[j..] + x) == None
  {
    if u != "" {
      NoMatchInMeaning(u[1..], x, m);
      assert u[0..] == u;
      assert forall j :: 0 <= j < |u[1..]| ==> u[1..][j..] == u[j + 1..];
      assert forall j :: 1 <= j < |u| ==> u[j..] == u[1..][j - 1..];
    }
  }

  /** A substitution keeps the text in front of `x` exactly when no match begins in it. */
  lemma {:induction false} SubSegment(u: string, x: string, y: string, m: Matcher, f: string -> string, open: char, guard: char)
    requires Sensible(m) && Apart(m, f, open, guard) && open != guard
    ensures Sub(u + x, m, f) == u + y <==> NoMatchIn(u, x, m) && Sub(x, m, f) == y
  {
    if u == "" {
      assert u + x == x && u + y == y;
    } else {
      assert (u + x)[1..] == u[1..] + x && (u + y)[1..] == u[1..] + y;
      SubSegment(u[1..], x, y, m, f, open, guard);
      assert ApartAt(u + x, m, f, open, guard);
      if m(u + x).Some? {
        assert Sub(u + x, m, f)[0] == guard && (u + y)[0] == open;
      } else {
        assert Sub(u + x, m, f) == [u[0]] + Sub(u[1..] + x, m, f);
        assert u + y == [u[0]] + (u[1..] + y);
      }
    }
  }

  // ---------------------------------------------------------------- sections

  /** The text before the first match, and each match's group with the text up to the next
      one. */
  function Sections(tokens: seq<Token>): (string, seq<(string, string)>) {
    if tokens == [] then ("", [])
    else
      var (lead, sections) := Sections(tokens[1..]);
      match tokens[0]
      case Char(c) => ([c] + lead, sections)
      case Hit(_, group) => ("", [(group, lead)] + sections)
  }

  /** The source from the first match on. */
  function FromFirstHit(tokens: seq<Token>): string {
    if tokens == [] then ""
    else if tokens[0].Hit? then SourceOf(tokens)
    else FromFirstHit(tokens[1..])
  }

  lemma {:induction false} LeadHasNoMatch(tokens: seq<Token>, m: Matcher)
    requires Leftmost(tokens, m)
    ensures SourceOf(tokens) == Sections(tokens).0 + FromFirstHit(tokens)
    ensures NoMatchIn(Sections(tokens).0, FromFirstHit(tokens), m)
    ensures FromFirstHit(tokens) == "" || m(FromFirstHit(tokens)).Some?
  {
    if tokens != [] && tokens[0].Char? {
      LeadHasNoMatch(tokens[1..], m);
      var lead, x := Sections(tokens[1..]).0, FromFirstHit(tokens[1..]);
      assert [tokens[0].c] + (lead + x) == ([tokens[0].c] + lead) + x;
      assert ([tokens[0].c] + lead)[1..] == lead;
    }
  }

  function Prepend(u: string, split: (string, seq<(string, string)>)): (string, seq<(string, string)>) {
    (u + split.0, split.1)
  }

  lemma PrependCons(c: char, u: string, split: (string, seq<(string, string)>))
    ensures Prepend([c], Prepend(u, split)) == Prepend([c] + u, split)
  {
    assert [c] + (u + split.0) == ([c] + u) + split.0;
  }

  lemma {:induction false} TextBefore(u: string, x: string, m: Matcher)
    requires Sensible(m) && NoMatchIn(u, x, m)
    ensures Sections(Scan(u + x, m)) == Prepend(u, Sections(Scan(x, m)))
  {
    if u == "" {
      assert u + x == x;
      assert "" + Sections(Scan(x, m)).0 == Sections(Scan(x, m)).0;
    } else {
      var c, rest := u[0], u[1..];
      assert u == [c] + rest && u + x == [c] + (rest + x);
      TextBefore(rest, x, m);
      CharBefore(c, rest + x, m);
      PrependCons(c, rest, Sections(Scan(x, m)));
    }
  }

  lemma CharBefore(c: char, x: string, m: Matcher)
    requires Sensible(m) && m([c] + x) == None
    ensures Sections(Scan([c] + x, m)) == Prepend([c], Sections(Scan(x, m)))
  {
    assert ([c] + x)[1..] == x;
    SectionsCons(Char(c), Scan(x, m));
  }

  lemma SectionsCons(t: Token, tokens: seq<Token>)
    ensures var (lead, sections) := Sections(tokens);
            Sections([t] + tokens) == (match t
              case Char(c) => ([c] + lead, sections)
              case Hit(_, group) => ("", [(group, lead)] + sections))
  {
    assert ([t] + tokens)[1..] == tokens;
  }

  lemma MatchBefore(c: string, group: string, x: string, m: Matcher)
    requires Sensible(m) && m(c + x) == Some((|c|, group))
    ensures Sections(Scan(c + x, m)) == ("", [(group, Sections(Scan(x, m)).0)] + Sections(Scan(x, m)).1)
  {
    assert (c + x)[|c|..] == x && (c + x)[..|c|] == c;
    SectionsCons(Hit(c, group), Scan(x, m));
  }
}
