/** Relationship targets as URI references: section 5.2.2 of RFC 3986 for a base that is a path
    within the archive, and when the resolution of targets agrees with it. */
module UriReferences {
  import opened Text
  import opened DotSegments
  import opened ExcelTargets

  /** The parts of a reference; `tail` is its query and its fragment, as written. */
  datatype Reference = Reference(scheme: Option<string>, authority: Option<string>, path: string, tail: string)

  /** How far `s` has none of the characters. */
  function Until(s: string, stops: string): (n: nat)
    ensures n <= |s| && (n < |s| ==> s[n] in stops)
    ensures forall i :: 0 <= i < n ==> s[i] !in stops
  {
    if s == "" || s[0] in stops then 0 else 1 + Until(s[1..], stops)
  }

  function SchemePart(scheme: Option<string>): string {
    if scheme.Some? then scheme.value + ":" else ""
  }

  function AuthorityPart(authority: Option<string>): string {
    if authority.Some? then "//" + authority.value else ""
  }

  /** Section 5.3. */
  function Compose(r: Reference): string {
    SchemePart(r.scheme) + (AuthorityPart(r.authority) + (r.path + r.tail))
  }

  function SplitScheme(s: string): (parts: (Option<string>, string))
    ensures SchemePart(parts.0) + parts.1 == s
    ensures parts.0.Some? ==> parts.0.value != "" && parts.0.value[0] != '/'
  {
    var n := Until(s, ":/?#");
    if 0 < n < |s| && s[n] == ':' then
      assert s[0] !in ":/?#" && ":/?#"[1] == '/';
      (Some(s[..n]), s[n + 1..])
    else (None, s)
  }

  function SplitAuthority(s: string): (parts: (Option<string>, string))
    ensures AuthorityPart(parts.0) + parts.1 == s
  {
    if "//" <= s then
      var n := Until(s[2..], "/?#");
      (Some(s[2..][..n]), s[2..][n..])
    else (None, s)
  }

  function SplitTail(s: string): (parts: (string, string))
    ensures parts.0 + parts.1 == s && IsTail(parts.1)
  {
    var n := Until(s, "?#");
    (s[..n], s[n..])
  }

  /** A query or fragment. */
  predicate IsTail(tail: string) {
    tail == "" || tail[0] in "?#"
  }

  /** Section 3 and appendix B. */
  function Parse(s: string): (r: Reference)
    ensures Compose(r) == s && IsTail(r.tail)
    ensures r.scheme.Some? ==> r.scheme.value != "" && r.scheme.value[0] != '/'
  {
    var (scheme, rest) := SplitScheme(s);
    var (authority, end) := SplitAuthority(rest);
    var (path, tail) := SplitTail(end);
    Reference(scheme, authority, path, tail)
  }

  /** Section 5.2.2, for a base that has a path only. */
  function Target(base: string, r: Reference): Reference {
    if r.scheme.Some? || r.authority.Some? then r.(path := RemoveDotSegments(r.path, ""))
    else if r.path == "" then r.(path := base)
    else r.(path := Resolve(base, r.path))
  }

  // ---------------------------------------------------------------- targets with a tail

  lemma {:induction false} StripWithTail(path: string, tail: string)
    requires IsTail(tail)
    ensures LStripSlashes(path + tail) == LStripSlashes(path) + tail
  {
    if path == "" {
      assert path + tail == tail;
    } else if path[0] == '/' {
      assert (path + tail)[1..] == path[1..] + tail;
      StripWithTail(path[1..], tail);
    }
  }

  /** A tail does not complete a prefix that has none of its first characters. */
  lemma PrefixWithTail(prefix: string, t: string, tail: string)
    requires IsTail(tail) && '?' !in prefix && '#' !in prefix
    ensures prefix <= t + tail <==> prefix <= t
  {
    assert |t| < |prefix| ==> prefix[|t|] != '?' && prefix[|t|] != '#';
    assert tail != "" ==> (t + tail)[|t|] == tail[0];
  }

  lemma SheetTargetWithTail(dir: string, path: string, tail: string)
    requires IsTail(tail)
    ensures SheetTarget(dir, path + tail) == SheetTarget(dir, path) + tail
  {
    var t := LStripSlashes(path);
    StripWithTail(path, tail);
    PrefixWithTail("../", t, tail);
    PrefixWithTail("xl/", t, tail);
    assert "../" <= t ==> (t + tail)[3..] == t[3..] + tail && "xl/" + (t[3..] + tail) == ("xl/" + t[3..]) + tail;
    assert dir + "/" + (t + tail) == (dir + "/" + t) + tail;
  }

  lemma WorkbookTargetWithTail(path: string, tail: string)
    requires IsTail(tail)
    ensures WorkbookTarget(path + tail) == WorkbookTarget(path) + tail
  {
    var t := LStripSlashes(path);
    StripWithTail(path, tail);
    PrefixWithTail("xl/", t, tail);
    assert "xl/" + (t + tail) == ("xl/" + t) + tail;
  }

  /** Nothing that has no mark in it begins before a tail and ends in it. */
  lemma TailOccurrences(t: string, tail: string, needle: string, k: int)
    requires IsTail(tail) && '?' !in needle && '#' !in needle && needle != ""
    ensures OccursAt(t + tail, needle, k) <==> OccursAt(t, needle, k) || OccursAt(tail, needle, k - |t|)
  {
    var s, n := t + tail, |needle|;
    if 0 <= k <= |t| - n {
      assert s[k..k + n] == t[k..k + n];
    } else if |t| <= k <= |s| - n {
      assert s[k..k + n] == tail[k - |t|..k - |t| + n];
    } else if 0 <= k <= |s| - n {
      assert s[k..k + n][|t| - k] == tail[0];
    }
  }

  /** What occurs in the tail occurs last. */
  lemma LastWithTail(t: string, tail: string, needle: string)
    requires IsTail(tail) && '?' !in needle && '#' !in needle && needle != ""
    ensures LastOccurrence(t + tail, needle) ==
              if LastOccurrence(tail, needle) >= 0 then |t| + LastOccurrence(tail, needle) else LastOccurrence(t, needle)
  {
    var whole, inTail, before := LastOccurrence(t + tail, needle), LastOccurrence(tail, needle), LastOccurrence(t, needle);
    TailOccurrences(t, tail, needle, whole);
    TailOccurrences(t, tail, needle, before);
    TailOccurrences(t, tail, needle, |t| + inTail);
  }

  lemma LastMediaWithTail(t: string, tail: string)
    requires IsTail(tail)
    ensures LastOccurrence(t + tail, MEDIA) ==
              if LastOccurrence(tail, MEDIA) >= 0 then |t| + LastOccurrence(tail, MEDIA) else LastOccurrence(t, MEDIA)
  {
    LastWithTail(t, tail, MEDIA);
  }

  /** What a target is resolved to, from its last media folder or from its start. */
  lemma Resolved(dir: string, target: string, t: string, k: int)
    requires t == LStripSlashes(target) && k == LastOccurrence(t, MEDIA)
    ensures k >= 0 ==> DrawingTarget(dir, target) == "xl/" + MEDIA + t[k + |MEDIA|..]
    ensures k < 0 ==> DrawingTarget(dir, target) == if "xl/" <= t then t else dir + "/" + t
  {
  }

  lemma DrawingTargetWithTail(dir: string, path: string, tail: string)
    requires IsTail(tail) && LastOccurrence(tail, MEDIA) < 0
    ensures DrawingTarget(dir, path + tail) == DrawingTarget(dir, path) + tail
  {
    var t := LStripSlashes(path);
    var k := LastOccurrence(t, MEDIA);
    StripWithTail(path, tail);
    LastMediaWithTail(t, tail);
    Resolved(dir, path, t, k);
    Resolved(dir, path + tail, t + tail, k);
    if k >= 0 {
      RestWithTail(t, tail, k + |MEDIA|, "xl/" + MEDIA);
    } else {
      PrefixWithTail("xl/", t, tail);
      RestWithTail(t, tail, 0, dir + "/");
    }
  }

  lemma RestWithTail(t: string, tail: string, k: nat, front: string)
    requires k <= |t|
    ensures front + (t + tail)[k..] == (front + t[k..]) + tail
    ensures k == 0 ==> t[k..] == t && (t + tail)[k..] == t + tail
  {
    assert (t + tail)[k..] == t[k..] + tail;
  }

  lemma MediaInTail(dir: string, path: string, tail: string, resolved: string)
    requires IsTail(tail) && LastOccurrence(tail, MEDIA) >= 0
    ensures "/" + DrawingTarget(dir, path + tail) != resolved + tail
  {
    ResolvedInTail(dir, path, tail);
    MarkStays(resolved, tail, MEDIA, LastOccurrence(tail, MEDIA));
  }

  lemma ResolvedInTail(dir: string, path: string, tail: string)
    requires IsTail(tail) && LastOccurrence(tail, MEDIA) >= 0
    ensures DrawingTarget(dir, path + tail) == "xl/" + MEDIA + tail[LastOccurrence(tail, MEDIA) + |MEDIA|..]
  {
    var t, k := LStripSlashes(path), LastOccurrence(tail, MEDIA);
    StripWithTail(path, tail);
    LastMediaWithTail(t, tail);
    Resolved(dir, path + tail, t + tail, |t| + k);
    DropFront(t, tail, k + |MEDIA|);
  }

  lemma DropFront(t: string, tail: string, k: nat)
    requires k <= |tail|
    ensures (t + tail)[|t| + k..] == tail[k..]
  {
  }

  lemma OccurrenceParts(s: string, needle: string, k: nat)
    requires OccursAt(s, needle, k)
    ensures s == s[..k] + (needle + s[k + |needle|..])
  {
  }

  /** The mark that a tail begins with is not in front of the media folder. */
  lemma MarkStays(resolved: string, tail: string, media: string, k: nat)
    requires IsTail(tail) && OccursAt(tail, media, k) && '?' !in media && '#' !in media && media != ""
    ensures "/" + ("xl/" + media + tail[k + |media|..]) != resolved + tail
  {
    var end := media + tail[k + |media|..];
    OccurrenceParts(tail, media, k);
    assert tail[k..k + |media|][0] == media[0];
    assert k > 0 && tail[..k][0] == tail[0];
    Unmarked(resolved, tail[..k]);
    assert "/" + ("xl/" + media + tail[k + |media|..]) == "/xl/" + end;
    assert resolved + tail == (resolved + tail[..k]) + end;
    if "/xl/" + end == (resolved + tail[..k]) + end {
      SameTail("/xl/", resolved + tail[..k], end);
    }
  }

  lemma Unmarked(resolved: string, front: string)
    requires front != "" && front[0] in "?#"
    ensures "/xl/" != resolved + front
  {
    assert (resolved + front)[|resolved|] == front[0];
    assert forall i :: 0 <= i < |"/xl/"| ==> "/xl/"[i] !in "?#";
  }

  // ---------------------------------------------------------------- main results

  /** Where a reference points to within the archive, and with which part of the path. */
  predicate IsInternal(r: Reference) {
    r.scheme.None? && r.authority.None?
  }

  /** A reference to elsewhere is never resolved to a path of the archive. */
  lemma ExternalDiffers(base: string, target: string, resolved: string)
    requires resolved != "" && resolved[0] != '/'
    requires !IsInternal(Parse(target))
    ensures "/" + resolved != Compose(Target(base, Parse(target)))
  {
    var r := Parse(target);
    var whole := Compose(Target(base, r));
    if r.scheme.Some? {
      assert whole[0] == r.scheme.value[0];
    } else {
      assert whole[1] == '/';
    }
  }

  /** For a reference within the archive the tail plays no part. */
  lemma InternalAgreesIff(base: string, r: Reference, resolved: string)
    requires IsInternal(r)
    ensures "/" + (resolved + r.tail) == Compose(Target(base, r)) <==>
              "/" + resolved == if r.path == "" then base else Resolve(base, r.path)
  {
    var path := if r.path == "" then base else Resolve(base, r.path);
    assert Compose(Target(base, r)) == path + r.tail;
    assert "/" + (resolved + r.tail) == ("/" + resolved) + r.tail;
    if ("/" + resolved) + r.tail == path + r.tail {
      SameTail("/" + resolved, path, r.tail);
    }
  }

  /** Sheet targets, whatever they are, are resolved as RFC 3986 says exactly when they have
      neither scheme nor authority, and their path conforms; one without a path, which means
      the sheet itself, is never resolved so, unless the sheet has no name. */
  lemma SheetTargetIsRfcIff(dir: string, file: string, target: string)
    requires "xl/" <= dir + "/" + file && '/' !in file && target != ""
    ensures var r := Parse(target);
            "/" + SheetTarget(dir, target) == Compose(Target("/" + dir + "/" + file, r)) <==>
              IsInternal(r) && if r.path == "" then file == "" else Conforms(dir, r.path)
  {
    var r, base := Parse(target), "/" + dir + "/" + file;
    StartsInXl(dir, file, target);
    if !IsInternal(r) {
      ExternalDiffers(base, target, SheetTarget(dir, target));
    } else {
      assert target == r.path + r.tail;
      SheetTargetWithTail(dir, r.path, r.tail);
      InternalAgreesIff(base, r, SheetTarget(dir, r.path));
      if r.path == "" {
        assert SheetTarget(dir, "") == dir + "/";
        NoFile(dir, file);
      } else {
        SheetPathIsRfcIff(dir, file, r.path);
      }
    }
  }

  lemma StartsInXl(dir: string, file: string, target: string)
    requires "xl/" <= dir + "/" + file
    ensures SheetTarget(dir, target)[0] == 'x'
  {
    assert (dir + "/" + file)[0] == 'x';
    assert dir != "" && dir[0] == 'x';
  }

  lemma PathStartsInXl(dir: string, file: string, target: string)
    requires "xl/" <= dir + "/" + file
    ensures DrawingTarget(dir, target)[0] == 'x'
  {
    assert (dir + "/" + file)[0] == 'x';
    assert dir != "" && dir[0] == 'x';
  }

  /** The same for the targets of a drawing, moved to the media folder or not: they must have no
      media folder in their query or fragment either. */
  lemma DrawingTargetIsRfcIff(dir: string, file: string, target: string)
    requires "xl/" <= dir + "/" + file && '/' !in file && target != ""
    ensures var r := Parse(target);
            "/" + DrawingTarget(dir, target) == Compose(Target("/" + dir + "/" + file, r)) <==>
              && IsInternal(r) && LastOccurrence(r.tail, MEDIA) < 0
              && if r.path == "" then file == "" else DrawingConforms(dir, r.path)
  {
    var r, base := Parse(target), "/" + dir + "/" + file;
    PathStartsInXl(dir, file, target);
    if !IsInternal(r) {
      ExternalDiffers(base, target, DrawingTarget(dir, target));
    } else {
      InternalDrawingIff(dir, file, target, r);
    }
  }

  lemma InternalDrawingIff(dir: string, file: string, target: string, r: Reference)
    requires "xl/" <= dir + "/" + file && '/' !in file
    requires IsInternal(r) && IsTail(r.tail) && target == Compose(r)
    ensures "/" + DrawingTarget(dir, target) == Compose(Target("/" + dir + "/" + file, r)) <==>
              LastOccurrence(r.tail, MEDIA) < 0 && if r.path == "" then file == "" else DrawingConforms(dir, r.path)
  {
    var base := "/" + dir + "/" + file;
    var path := if r.path == "" then base else Resolve(base, r.path);
    assert target == r.path + r.tail;
    if LastOccurrence(r.tail, MEDIA) >= 0 {
      assert Compose(Target(base, r)) == path + r.tail;
      MediaInTail(dir, r.path, r.tail, path);
    } else {
      DrawingTargetWithTail(dir, r.path, r.tail);
      InternalAgreesIff(base, r, DrawingTarget(dir, r.path));
      if r.path == "" {
        assert DrawingTarget(dir, "") == dir + "/";
        NoFile(dir, file);
      } else {
        DrawingPathIsRfcIff(dir, file, r.path);
      }
    }
  }

  lemma NoFile(dir: string, file: string)
    ensures "/" + (dir + "/") == "/" + dir + "/" + file <==> file == ""
  {
    assert |"/" + dir + "/" + file| == |"/" + (dir + "/")| + |file|;
    assert file == "" ==> "/" + dir + "/" + file == "/" + (dir + "/");
  }

  /** The same for the targets of the workbook. */
  lemma WorkbookTargetIsRfcIff(target: string)
    requires target != ""
    ensures var r := Parse(target);
            "/" + WorkbookTarget(target) == Compose(Target("/" + "xl" + "/" + "workbook.xml", r)) <==>
              IsInternal(r) && r.path != "" && WorkbookConforms(r.path)
  {
    FromWorkbook("xl", "workbook.xml", target);
  }

  lemma FromWorkbook(xl: string, file: string, target: string)
    requires xl == "xl" && '/' !in file && file != "" && target != ""
    ensures var r := Parse(target);
            "/" + WorkbookTarget(target) == Compose(Target("/" + xl + "/" + file, r)) <==>
              IsInternal(r) && r.path != "" && WorkbookConforms(r.path)
  {
    var r, base := Parse(target), "/" + xl + "/" + file;
    if !IsInternal(r) {
      ExternalDiffers(base, target, WorkbookTarget(target));
    } else {
      assert target == r.path + r.tail;
      WorkbookTargetWithTail(r.path, r.tail);
      InternalAgreesIff(base, r, WorkbookTarget(r.path));
      if r.path == "" {
        assert WorkbookTarget("") == xl + "/";
        NoFile(xl, file);
      } else {
        FromXl(xl, file, r.path);
      }
    }
  }
}
