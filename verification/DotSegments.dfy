/** Resolving a relative path against a base path: sections 5.2.3 and 5.2.4 of RFC 3986, once on
    strings as the RFC puts it, once on segments. */
module DotSegments {
  import opened Text

  // ---------------------------------------------------------------- as the RFC puts it

  function FirstSlash(s: string): (n: nat)
    ensures n <= |s| && '/' !in s[..n]
    ensures n < |s| ==> s[n] == '/'
  {
    if s == "" || s[0] == '/' then 0 else 1 + FirstSlash(s[1..])
  }

  /** Without the last segment and the "/" before it. */
  function DropLastSegment(s: string): string {
    if s == "" then ""
    else if s[|s| - 1] == '/' then s[..|s| - 1]
    else DropLastSegment(s[..|s| - 1])
  }

  predicate IsAbsolute(s: string) {
    s != "" && s[0] == '/'
  }

  /** One step of section 5.2.4: the input and output buffers after it. */
  function Step(input: string, output: string): (next: (string, string))
    requires input != ""
    ensures |next.0| < |input|
    ensures IsAbsolute(input) ==> next.0 == "" || IsAbsolute(next.0)
  {
    if "../" <= input then (input[3..], output)
    else if "./" <= input then (input[2..], output)
    else if "/./" <= input then (input[2..], output)
    else if input == "/." then ("/", output)
    else if "/../" <= input then (input[3..], DropLastSegment(output))
    else if input == "/.." then ("/", DropLastSegment(output))
    else if input == "." || input == ".." then ("", output)
    else
      var n := if input[0] == '/' then 1 + FirstSlash(input[1..]) else FirstSlash(input);
      (input[n..], output + input[..n])
  }

  function RemoveDotSegments(input: string, output: string): string
    decreases |input|
  {
    if input == "" then output
    else
      var (input', output') := Step(input, output);
      RemoveDotSegments(input', output')
  }

  /** Section 5.2.3: the base path up to its last "/", then the reference. */
  function Merge(base: string, reference: string): string {
    if base == "" || base[|base| - 1] == '/' then base + reference else Merge(base[..|base| - 1], reference)
  }

  /** The path of the target for a reference that is a path only. */
  function Resolve(base: string, reference: string): string
    requires reference != ""
  {
    if reference[0] == '/' then RemoveDotSegments(reference, "")
    else RemoveDotSegments(Merge(base, reference), "")
  }

  // ---------------------------------------------------------------- on segments

  predicate IsDots(segment: string) {
    segment == "." || segment == ".."
  }

  function ButLast(segments: seq<string>): seq<string> {
    if segments == [] then [] else segments[..|segments| - 1]
  }

  /** The folder that a list of segments, all of them folders, leads to from `out`. */
  function Collapse(segments: seq<string>, out: seq<string>): seq<string> {
    if segments == [] then out
    else if segments[0] == "." then Collapse(segments[1..], out)
    else if segments[0] == ".." then Collapse(segments[1..], ButLast(out))
    else Collapse(segments[1..], out + [segments[0]])
  }

  /** The same where the last segment is not a folder, unless it is a dot segment. */
  function Normal(segments: seq<string>, out: seq<string>): seq<string>
    requires segments != []
  {
    var last := segments[|segments| - 1];
    Collapse(segments, out) + if IsDots(last) then [""] else []
  }

  function Flat(segments: seq<string>): string {
    if segments == [] then "" else "/" + segments[0] + Flat(segments[1..])
  }

  predicate SlashFree(segments: seq<string>) {
    forall i :: 0 <= i < |segments| ==> '/' !in segments[i]
  }

  predicate DotFree(segments: seq<string>) {
    forall i :: 0 <= i < |segments| ==> !IsDots(segments[i])
  }

  lemma {:induction false} FlatConcat(a: seq<string>, b: seq<string>)
    ensures Flat(a + b) == Flat(a) + Flat(b)
  {
    if a == [] {
      assert a + b == b;
    } else {
      FlatConcat(a[1..], b);
      assert (a + b)[1..] == a[1..] + b;
      var head := "/" + a[0];
      assert head + (Flat(a[1..]) + Flat(b)) == (head + Flat(a[1..])) + Flat(b);
    }
  }

  lemma FlatSnoc(a: seq<string>, s: string)
    ensures Flat(a + [s]) == Flat(a) + "/" + s
  {
    FlatConcat(a, [s]);
    assert [s][1..] == [];
    assert Flat([s]) == "/" + s + "";
  }

  lemma {:induction false} DropEndsAtSlash(p: string, s: string)
    requires '/' !in s
    ensures DropLastSegment(p + "/" + s) == p
  {
    var all := p + "/" + s;
    if s == "" {
      assert all[..|all| - 1] == p;
    } else {
      DropEndsAtSlash(p, s[..|s| - 1]);
      assert all[..|all| - 1] == p + "/" + s[..|s| - 1];
    }
  }

  lemma DropIsButLast(out: seq<string>)
    requires SlashFree(out)
    ensures DropLastSegment(Flat(out)) == Flat(ButLast(out))
  {
    if out != [] {
      var last := out[|out| - 1];
      assert out == ButLast(out) + [last];
      FlatSnoc(ButLast(out), last);
      DropEndsAtSlash(Flat(ButLast(out)), last);
    }
  }

  lemma {:induction false} SlashAfter(s: string, rest: string)
    requires '/' !in s && (rest == "" || rest[0] == '/')
    ensures FirstSlash(s + rest) == |s|
  {
    if s == "" {
      assert s + rest == rest;
    } else {
      SlashAfter(s[1..], rest);
      assert (s + rest)[1..] == s[1..] + rest;
    }
  }

  lemma DotPrefix(s: string, rest: string)
    requires '/' !in s && (rest == "" || rest[0] == '/')
    ensures "/./" <= "/" + s + rest <==> s == "." && rest != ""
    ensures "/" + s + rest == "/." <==> s == "." && rest == ""
  {
    var input := "/" + s + rest;
    assert forall i :: 0 <= i < |s| ==> input[i + 1] == s[i];
    assert rest != "" ==> input[|s| + 1] == '/';
    assert |s| > 1 ==> s[1] != '/';
  }

  lemma DotDotPrefix(s: string, rest: string)
    requires '/' !in s && (rest == "" || rest[0] == '/')
    ensures "/../" <= "/" + s + rest <==> s == ".." && rest != ""
    ensures "/" + s + rest == "/.." <==> s == ".." && rest == ""
  {
    var input := "/" + s + rest;
    assert forall i :: 0 <= i < |s| ==> input[i + 1] == s[i];
    assert rest != "" ==> input[|s| + 1] == '/';
    assert |s| > 2 ==> s[2] != '/';
  }

  lemma DotStep(rest: string, output: string)
    requires rest == "" || rest[0] == '/'
    ensures Step("/" + "." + rest, output) == (if rest == "" then "/" else rest, output)
  {
    var input := "/" + "." + rest;
    DotPrefix(".", rest);
    assert input[0] == '/' && (rest == "" ==> input == "/.");
    if rest != "" {
      assert "/./" <= input && input[2..] == rest;
    }
  }

  lemma DotDotStep(rest: string, output: string)
    requires rest == "" || rest[0] == '/'
    ensures Step("/" + ".." + rest, output) == (if rest == "" then "/" else rest, DropLastSegment(output))
  {
    var input := "/" + ".." + rest;
    DotPrefix("..", rest);
    DotDotPrefix("..", rest);
    assert input[3..] == rest;
  }

  lemma PlainStep(s: string, rest: string, output: string)
    requires '/' !in s && (rest == "" || rest[0] == '/') && !IsDots(s)
    ensures Step("/" + s + rest, output) == (rest, output + "/" + s)
  {
    DotPrefix(s, rest);
    DotDotPrefix(s, rest);
    AbsoluteStep("/" + s + rest, output);
    SlashAfter(s, rest);
    PlainPieces(s, rest, output);
  }

  lemma AbsoluteStep(input: string, output: string)
    requires IsAbsolute(input)
    requires !("/./" <= input) && input != "/." && !("/../" <= input) && input != "/.."
    ensures var n := 1 + FirstSlash(input[1..]); Step(input, output) == (input[n..], output + input[..n])
  {
  }

  lemma PlainPieces(s: string, rest: string, output: string)
    ensures var input := "/" + s + rest;
            && input[1..] == s + rest && input[|s| + 1..] == rest
            && output + input[..|s| + 1] == output + "/" + s
  {
    assert ("/" + s + rest)[..|s| + 1] == "/" + s;
  }

  /** One step handles the first segment. */
  lemma FirstSegment(s: string, rest: string, output: string)
    requires '/' !in s && (rest == "" || rest[0] == '/')
    ensures Step("/" + s + rest, output) ==
              if s == "." then (if rest == "" then "/" else rest, output)
              else if s == ".." then (if rest == "" then "/" else rest, DropLastSegment(output))
              else (rest, output + "/" + s)
  {
    if s == "." {
      DotStep(rest, output);
    } else if s == ".." {
      DotDotStep(rest, output);
    } else {
      PlainStep(s, rest, output);
    }
  }

  lemma OnlySlash(out: seq<string>)
    ensures RemoveDotSegments("/", Flat(out)) == Flat(out + [""])
  {
    FirstSegment("", "", Flat(out));
    assert "/" + "" + "" == "/";
    FlatSnoc(out, "");
    assert RemoveDotSegments("", Flat(out) + "/" + "") == Flat(out) + "/" + "";
  }

  lemma {:induction false} LastSegment(s: string, out: seq<string>)
    requires '/' !in s && SlashFree(out)
    ensures RemoveDotSegments("/" + s, Flat(out)) == Flat(Normal([s], out))
  {
    FirstSegment(s, "", Flat(out));
    assert "/" + s + "" == "/" + s;
    DropIsButLast(out);
    FlatSnoc(out, s);
    OnlySlash(out);
    OnlySlash(ButLast(out));
    NormalOne(s, out);
    assert RemoveDotSegments("", Flat(out) + "/" + s) == Flat(out) + "/" + s;
  }

  lemma NormalOne(s: string, out: seq<string>)
    ensures Normal([s], out) == if s == "." then out + [""] else if s == ".." then ButLast(out) + [""] else out + [s]
  {
    assert [s][1..] == [];
    assert Collapse([s], out) == if s == "." then out else if s == ".." then ButLast(out) else out + [s];
  }

  lemma NormalStep(s: string, rest: seq<string>, out: seq<string>)
    requires rest != []
    ensures Normal([s] + rest, out) == Normal(rest, if s == "." then out else if s == ".." then ButLast(out) else out + [s])
  {
    assert ([s] + rest)[1..] == rest;
  }

  /** The two forms are the same. */
  lemma {:induction false} StringsAsSegments(segments: seq<string>, out: seq<string>)
    requires segments != [] && SlashFree(segments) && SlashFree(out)
    ensures RemoveDotSegments(Flat(segments), Flat(out)) == Flat(Normal(segments, out))
    decreases |segments|
  {
    var s, rest := segments[0], segments[1..];
    if rest == [] {
      LastSegment(s, out);
      assert segments == [s] && Flat(segments) == "/" + s + "" == "/" + s;
    } else {
      FirstSegment(s, Flat(rest), Flat(out));
      DropIsButLast(out);
      FlatSnoc(out, s);
      NormalStep(s, rest, out);
      assert segments == [s] + rest;
      StringsAsSegments(rest, if s == "." then out else if s == ".." then ButLast(out) else out + [s]);
    }
  }

  // ---------------------------------------------------------------- paths and their segments

  lemma {:induction false} SplitIsSlashFree(s: string)
    ensures SlashFree(Split(s, '/'))
  {
    if s != "" {
      SplitIsSlashFree(s[1..]);
    }
  }

  lemma {:induction false} FlatSplit(s: string)
    ensures Flat(Split(s, '/')) == "/" + s
  {
    if s == "" {
      assert Flat([""]) == "/" + "" + Flat([""][1..]);
    } else {
      var rest := Split(s[1..], '/');
      FlatSplit(s[1..]);
      assert s == [s[0]] + s[1..];
      if s[0] == '/' {
        assert ([""] + rest)[1..] == rest;
      } else {
        assert Flat(rest) == "/" + rest[0] + Flat(rest[1..]);
        assert s[1..] == rest[0] + Flat(rest[1..]) by {
          assert ("/" + s[1..])[1..] == ("/" + rest[0] + Flat(rest[1..]))[1..];
        }
        assert ([[s[0]] + rest[0]] + rest[1..])[1..] == rest[1..];
      }
    }
  }

  lemma {:induction false} FlatIsInjective(a: seq<string>, b: seq<string>)
    requires SlashFree(a) && SlashFree(b) && Flat(a) == Flat(b)
    ensures a == b
  {
    if a != [] {
      SlashAfter(a[0], Flat(a[1..]));
      SlashAfter(b[0], Flat(b[1..]));
      assert Flat(a)[1..] == a[0] + Flat(a[1..]) && Flat(b)[1..] == b[0] + Flat(b[1..]);
      assert Flat(a)[1..][|a[0]|..] == Flat(a[1..]) && Flat(b)[1..][|a[0]|..] == Flat(b[1..]);
      FlatIsInjective(a[1..], b[1..]);
      assert a == [a[0]] + a[1..] && b == [b[0]] + b[1..];
    }
  }

  lemma {:induction false} MergeAtSlash(folder: string, file: string, reference: string)
    requires '/' !in file
    ensures Merge("/" + folder + "/" + file, reference) == "/" + folder + "/" + reference
  {
    var base := "/" + folder + "/" + file;
    if file != "" {
      MergeAtSlash(folder, file[..|file| - 1], reference);
      assert base[..|base| - 1] == "/" + folder + "/" + file[..|file| - 1];
      assert base[|base| - 1] == file[|file| - 1];
    }
  }

  /** Removing the dot segments of a path, on its segments. */
  lemma RemoveOnPath(path: string)
    ensures RemoveDotSegments("/" + path, "") == Flat(Normal(Split(path, '/'), []))
  {
    SplitIsSlashFree(path);
    FlatSplit(path);
    StringsAsSegments(Split(path, '/'), []);
  }

  // ---------------------------------------------------------------- collapsing

  lemma {:induction false} CollapseConcat(a: seq<string>, b: seq<string>, out: seq<string>)
    ensures Collapse(a + b, out) == Collapse(b, Collapse(a, out))
  {
    if a == [] {
      assert a + b == b;
    } else {
      assert (a + b)[1..] == a[1..] + b;
      CollapseConcat(a[1..], b, if a[0] == "." then out else if a[0] == ".." then ButLast(out) else out + [a[0]]);
    }
  }

  lemma {:induction false} CollapseDotFree(a: seq<string>, out: seq<string>)
    requires DotFree(a)
    ensures Collapse(a, out) == out + a
  {
    if a != [] {
      assert !IsDots(a[0]);
      CollapseDotFree(a[1..], out + [a[0]]);
      assert a == [a[0]] + a[1..];
    }
  }

  lemma {:induction false} CollapseClean(a: seq<string>, out: seq<string>)
    requires DotFree(out) && SlashFree(out) && SlashFree(a)
    ensures DotFree(Collapse(a, out)) && SlashFree(Collapse(a, out))
  {
    if a != [] {
      CollapseClean(a[1..], if a[0] == "." then out else if a[0] == ".." then ButLast(out) else out + [a[0]]);
    }
  }

  lemma NormalConcat(base: seq<string>, rest: seq<string>)
    requires rest != [] && DotFree(rest)
    ensures Normal(base + rest, []) == Collapse(base, []) + rest
  {
    CollapseConcat(base, rest, []);
    CollapseDotFree(rest, Collapse(base, []));
    assert (base + rest)[|base + rest| - 1] == rest[|rest| - 1];
  }

  lemma DotFreeConcat(a: seq<string>, b: seq<string>)
    ensures DotFree(a + b) <==> DotFree(a) && DotFree(b)
  {
    assert forall i :: 0 <= i < |a| ==> (a + b)[i] == a[i];
    assert forall i :: 0 <= i < |b| ==> (a + b)[|a| + i] == b[i];
  }

  lemma NormalIsClean(segments: seq<string>)
    requires segments != [] && SlashFree(segments)
    ensures DotFree(Normal(segments, [])) && SlashFree(Normal(segments, []))
  {
    CollapseClean(segments, []);
  }

  /** Replacing the folder `base` by the clean folder `prefix` is right exactly when the rest
      is free of dot segments and `base` leads to `prefix`. */
  lemma PrefixAgrees(prefix: seq<string>, base: seq<string>, rest: seq<string>)
    requires rest != [] && SlashFree(prefix) && SlashFree(base) && SlashFree(rest)
    ensures Flat(prefix + rest) == Flat(Normal(base + rest, []))
            <==> DotFree(prefix) && DotFree(rest) && Collapse(base, []) == prefix
  {
    if Flat(prefix + rest) == Flat(Normal(base + rest, [])) {
      PrefixMustAgree(prefix, base, rest);
    }
    if DotFree(rest) {
      NormalConcat(base, rest);
    }
  }

  lemma PrefixMustAgree(prefix: seq<string>, base: seq<string>, rest: seq<string>)
    requires rest != [] && SlashFree(prefix) && SlashFree(base) && SlashFree(rest)
    requires Flat(prefix + rest) == Flat(Normal(base + rest, []))
    ensures DotFree(prefix) && DotFree(rest) && Collapse(base, []) == prefix
  {
    NormalIsClean(base + rest);
    FlatIsInjective(prefix + rest, Normal(base + rest, []));
    DotFreeConcat(prefix, rest);
    NormalConcat(base, rest);
    SameTail(prefix, Collapse(base, []), rest);
  }
}
