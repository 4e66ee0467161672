/** Where the relationships of a workbook lead to: the resolution of targets, and when it is
    that of RFC 3986. */
module ExcelTargets {
  import opened Text
  import opened DotSegments

  // ---------------------------------------------------------------- targets

  function LStripSlashes(s: string): (t: string)
    ensures t == "" || t[0] != '/'
  {
    if s != "" && s[0] == '/' then LStripSlashes(s[1..]) else s
  }

  lemma XlHasSlash(s: string)
    requires "xl/" <= s
    ensures '/' in s
  {
    assert s[2] == "xl/"[2] == '/';
  }

  /** Every resolved path has a slash, so that it can be split into folder and file. */
  function WorkbookTarget(target: string): (path: string)
    ensures "xl/" <= path && '/' in path
  {
    var t := LStripSlashes(target);
    var path := if "xl/" <= t then t else "xl/" + t;
    XlHasSlash(path);
    path
  }

  function SheetTarget(dir: string, target: string): (path: string)
    ensures '/' in path
  {
    var t := LStripSlashes(target);
    XlHasSlash("xl/");
    if "../" <= t then "xl/" + t[3..]
    else if "xl/" <= t then t
    else dir + "/" + t
  }

  predicate OccursAt(s: string, needle: string, k: int) {
    0 <= k <= |s| - |needle| && s[k..k + |needle|] == needle
  }

  lemma OccursInPrefix(s: string, needle: string)
    requires s != ""
    ensures forall i :: i != |s| - |needle| ==> (OccursAt(s, needle, i) <==> OccursAt(s[..|s| - 1], needle, i))
  {
    forall i | 0 <= i < |s| - |needle| ensures OccursAt(s, needle, i) <==> OccursAt(s[..|s| - 1], needle, i) {
      assert s[i..i + |needle|] == s[..|s| - 1][i..i + |needle|];
    }
  }

  /** Where `needle` occurs last, or -1. */
  function LastOccurrence(s: string, needle: string): (k: int)
    ensures k == -1 || OccursAt(s, needle, k)
    ensures forall i :: k < i ==> !OccursAt(s, needle, i)
  {
    if |s| < |needle| then -1
    else if OccursAt(s, needle, |s| - |needle|) then |s| - |needle|
    else if s == "" then -1
    else
      var shorter := s[..|s| - 1];
      OccursInPrefix(s, needle);
      LastOccurrence(shorter, needle)
  }

  const MEDIA := "media/"

  function DrawingTarget(dir: string, target: string): (path: string)
    ensures '/' in path
  {
    XlHasSlash("xl/");
    var t := LStripSlashes(target);
    var k := LastOccurrence(t, MEDIA);
    if k >= 0 then "xl/" + MEDIA + t[k + |MEDIA|..]
    else if "xl/" <= t then t
    else dir + "/" + t
  }

  /** Wherever a target leads to a file in a folder whose name ends in "media", it is moved to
      the media folder of the archive under its own name. */
  lemma MediaTargetsMove(dir: string, folder: string, name: string)
    requires '/' !in name
    ensures DrawingTarget(dir, folder + MEDIA + name) == "xl/" + MEDIA + name
  {
    var t := LStripSlashes(folder + MEDIA + name);
    MediaSurvives(folder, name);
    var k := |t| - |MEDIA| - |name|;
    assert t == t[..k] + MEDIA + name;
    LastMedia(t[..k], name);
    assert t[k + |MEDIA|..] == name;
  }

  lemma LastMedia(front: string, name: string)
    requires '/' !in name
    ensures LastOccurrence(front + MEDIA + name, MEDIA) == |front|
  {
    var t := front + MEDIA + name;
    assert t[|front|..|front| + |MEDIA|] == MEDIA;
    forall i | |front| < i && OccursAt(t, MEDIA, i) ensures false {
      SlashAt(t, i);
    }
    OccursLast(t, MEDIA, |front|);
  }

  lemma OccursLast(t: string, needle: string, k: nat)
    requires OccursAt(t, needle, k) && forall i :: k < i ==> !OccursAt(t, needle, i)
    ensures LastOccurrence(t, needle) == k
  {
  }

  lemma SlashAt(t: string, i: nat)
    requires OccursAt(t, MEDIA, i)
    ensures i + 5 < |t| && t[i + 5] == '/'
  {
    assert t[i..i + |MEDIA|][5] == MEDIA[5] == '/';
  }

  lemma {:induction false} MediaSurvives(folder: string, name: string)
    ensures var t := LStripSlashes(folder + MEDIA + name);
            |t| >= |MEDIA| + |name| && t[|t| - |MEDIA| - |name|..] == MEDIA + name
  {
    var target := folder + MEDIA + name;
    if folder != "" && folder[0] == '/' {
      assert target[1..] == folder[1..] + MEDIA + name;
      MediaSurvives(folder[1..], name);
    } else {
      assert folder == "" ==> target == MEDIA + name && target[0] == MEDIA[0] == 'm';
      assert LStripSlashes(target) == target;
    }
  }

  /** `path.rsplit("/", 1)`, which has two parts only if there is a slash. */
  function RSplit(path: string): (parts: (string, string))
    requires '/' in path
    ensures path == parts.0 + "/" + parts.1 && '/' !in parts.1
  {
    var n := |path| - 1;
    if path[n] == '/' then (path[..n], "")
    else
      var (dir, file) := RSplit(path[..n]);
      assert path == path[..n] + [path[n]];
      (dir, file + [path[n]])
  }

  // ---------------------------------------------------------------- agreement with RFC 3986

  /** The empty segments that extra slashes at the front make. */
  function Blanks(target: string): (blanks: seq<string>)
    requires IsAbsolute(target)
    ensures forall i :: 0 <= i < |blanks| ==> blanks[i] == ""
  {
    if |target| > 1 && target[1] == '/' then [""] + Blanks(target[1..]) else []
  }

  lemma {:induction false} SplitAfterSlashes(target: string)
    requires IsAbsolute(target)
    ensures Split(target[1..], '/') == Blanks(target) + Split(LStripSlashes(target), '/')
    ensures Blanks(target) == [] <==> target == "/" + LStripSlashes(target)
  {
    var rest := target[1..];
    if |target| > 1 && target[1] == '/' {
      SplitAfterSlashes(rest);
      assert Split(rest, '/') == [""] + Split(rest[1..], '/');
    } else {
      assert LStripSlashes(target) == rest;
    }
  }

  /** The folder, as segments, that a target is relative to. */
  function BaseSegments(dir: string, target: string): seq<string>
    requires target != ""
  {
    if target[0] == '/' then Blanks(target) else Split(dir, '/')
  }

  lemma BaseIsSlashFree(dir: string, target: string)
    requires target != ""
    ensures SlashFree(BaseSegments(dir, target))
  {
    SplitIsSlashFree(dir);
  }

  lemma GluePath(dir: string, target: string)
    ensures "/" + dir + "/" + target == "/" + (dir + "/" + target)
    ensures dir + ['/'] + target == dir + "/" + target
  {
  }

  lemma ResolveOnSegments(dir: string, file: string, target: string)
    requires '/' !in file && target != ""
    ensures Resolve("/" + dir + "/" + file, target)
            == Flat(Normal(BaseSegments(dir, target) + Split(LStripSlashes(target), '/'), []))
  {
    if target[0] == '/' {
      assert target == "/" + target[1..];
      RemoveOnPath(target[1..]);
      SplitAfterSlashes(target);
    } else {
      MergeAtSlash(dir, file, target);
      GluePath(dir, target);
      RemoveOnPath(dir + "/" + target);
      SplitConcat(dir, target, '/');
    }
  }

  lemma {:induction false} BlanksCollapse(target: string)
    requires IsAbsolute(target)
    ensures Collapse(Blanks(target), []) == Blanks(target)
    ensures Collapse(Blanks(target) + [".."], []) == ButLast(Blanks(target))
  {
    CollapseDotFree(Blanks(target), []);
    CollapseConcat(Blanks(target), [".."], []);
    assert [".."][1..] == [];
  }

  /** When a sheet's target is resolved as RFC 3986 wants it.  An absolute one must be a clean
      path below /xl/ behind a single slash; one that starts with "xl/" must be relative to
      the root; one that climbs must leave a folder right below /xl/, and not climb again; any
      other must be free of dot segments, like the folder it is relative to. */
  predicate Conforms(dir: string, target: string)
    requires target != ""
  {
    var t := LStripSlashes(target);
    if target[0] == '/' then target == "/" + t && "xl/" <= t && DotFree(Split(t, '/'))
    else if "../" <= t then Collapse(Split(dir, '/') + [".."], []) == ["xl"] && DotFree(Split(t[3..], '/'))
    else if "xl/" <= t then Collapse(Split(dir, '/'), []) == [] && DotFree(Split(t, '/'))
    else DotFree(Split(dir, '/')) && DotFree(Split(t, '/'))
  }

  lemma XlPrefix(rest: string)
    ensures "/" + ("xl/" + rest) == Flat(["xl"] + Split(rest, '/'))
    ensures SlashFree(["xl"])
  {
    SplitWhole("xl", '/');
    SplitConcat("xl", rest, '/');
    FlatSplit("xl/" + rest);
    assert "xl" + ['/'] + rest == "xl/" + rest;
  }

  lemma FolderPrefix(dir: string, rest: string)
    ensures "/" + (dir + "/" + rest) == Flat(Split(dir, '/') + Split(rest, '/'))
  {
    SplitConcat(dir, rest, '/');
    FlatSplit(dir + "/" + rest);
  }

  lemma XlHead(dir: string, file: string)
    requires "xl/" <= dir + "/" + file && '/' !in file
    ensures Split(dir, '/')[0] == "xl"
  {
    var path := dir + "/" + file;
    assert path[|dir|] == '/' && path[..3] == "xl/";
    assert |dir| >= 2;
    if |dir| == 2 {
      assert dir == path[..2] == "xl";
      SplitWhole(dir, '/');
    } else {
      assert dir[..3] == path[..3] == "xl/";
      assert dir == "xl" + ['/'] + dir[3..];
      SplitWhole("xl", '/');
      SplitConcat("xl", dir[3..], '/');
    }
  }

  lemma XlTarget(dir: string, file: string, target: string)
    requires '/' !in file && target != "" && "xl/" <= LStripSlashes(target)
    ensures "/" + LStripSlashes(target) == Resolve("/" + dir + "/" + file, target)
            <==> DotFree(Split(LStripSlashes(target), '/')) && Collapse(BaseSegments(dir, target), []) == []
  {
    var t := LStripSlashes(target);
    ResolveOnSegments(dir, file, target);
    FlatSplit(t);
    BaseIsSlashFree(dir, target);
    SplitIsSlashFree(t);
    PrefixAgrees([], BaseSegments(dir, target), Split(t, '/'));
    assert [] + Split(t, '/') == Split(t, '/');
  }

  lemma ClimbSegments(t: string)
    requires "../" <= t
    ensures Split(t, '/') == [".."] + Split(t[3..], '/')
  {
    assert t == ".." + ['/'] + t[3..];
    SplitWhole("..", '/');
    SplitConcat("..", t[3..], '/');
  }

  lemma ClimbingTarget(dir: string, file: string, target: string)
    requires '/' !in file && target != "" && "../" <= LStripSlashes(target)
    ensures "/" + ("xl/" + LStripSlashes(target)[3..]) == Resolve("/" + dir + "/" + file, target)
            <==> DotFree(Split(LStripSlashes(target)[3..], '/')) && Collapse(BaseSegments(dir, target) + [".."], []) == ["xl"]
  {
    var t, base := LStripSlashes(target), BaseSegments(dir, target);
    var rest := Split(t[3..], '/');
    ResolveOnSegments(dir, file, target);
    ClimbSegments(t);
    assert base + Split(t, '/') == (base + [".."]) + rest;
    XlPrefix(t[3..]);
    BaseIsSlashFree(dir, target);
    SplitIsSlashFree(t[3..]);
    PrefixAgrees(["xl"], base + [".."], rest);
    assert DotFree(["xl"]);
  }

  lemma PlainTarget(dir: string, folder: string, file: string, target: string)
    requires '/' !in file && target != ""
    ensures "/" + (folder + "/" + LStripSlashes(target)) == Resolve("/" + dir + "/" + file, target)
            <==> DotFree(Split(folder, '/')) && DotFree(Split(LStripSlashes(target), '/'))
                 && Collapse(BaseSegments(dir, target), []) == Split(folder, '/')
  {
    var t := LStripSlashes(target);
    ResolveOnSegments(dir, file, target);
    FolderPrefix(folder, t);
    BaseIsSlashFree(dir, target);
    SplitIsSlashFree(t);
    SplitIsSlashFree(folder);
    PrefixAgrees(Split(folder, '/'), BaseSegments(dir, target), Split(t, '/'));
  }

  /** Sheet targets that are a path only are resolved as RFC 3986 says exactly when they conform,
      for any folder under which a workbook target can place the sheet. */
  lemma SheetPathIsRfcIff(dir: string, file: string, target: string)
    requires "xl/" <= dir + "/" + file && '/' !in file && target != ""
    ensures "/" + SheetTarget(dir, target) == Resolve("/" + dir + "/" + file, target) <==> Conforms(dir, target)
  {
    var t := LStripSlashes(target);
    XlHead(dir, file);
    if target[0] == '/' {
      BlanksCollapse(target);
      SplitAfterSlashes(target);
    }
    if "../" <= t {
      ClimbingTarget(dir, file, target);
    } else if "xl/" <= t {
      XlTarget(dir, file, target);
    } else {
      PlainTarget(dir, dir, file, target);
      if target[0] != '/' && DotFree(Split(dir, '/')) {
        CollapseDotFree(Split(dir, '/'), []);
      }
    }
  }

  /** For a sheet right in a folder below /xl/, as is usual, this comes down to: an absolute
      target is a clean path below /xl/; a relative one is clean, but for one climb at the
      front, and does not start with "xl/". */
  lemma ConformsInSubfolder(folder: string, target: string)
    requires '/' !in folder && !IsDots(folder) && target != ""
    ensures var t := LStripSlashes(target);
            Conforms("xl/" + folder, target) <==>
              if target[0] == '/' then target == "/" + t && "xl/" <= t && DotFree(Split(t, '/'))
              else !("xl/" <= t) && DotFree(Split(if "../" <= t then t[3..] else t, '/'))
  {
    SplitWhole("xl", '/');
    SplitWhole(folder, '/');
    SplitConcat("xl", folder, '/');
    assert "xl" + ['/'] + folder == "xl/" + folder;
    var segments := Split("xl/" + folder, '/');
    assert segments == ["xl", folder];
    assert DotFree(segments);
    CollapseDotFree(segments, []);
    CollapseConcat(segments, [".."], []);
    assert [".."][1..] == [] && ButLast(segments) == ["xl"];
  }

  /** The same condition for a drawing's targets.  One with a media folder must lead, as a path,
      to the one below xl/ by its last "media/", and be clean behind it; none may climb without
      that. */
  predicate DrawingConforms(dir: string, target: string)
    requires target != ""
  {
    var t := LStripSlashes(target);
    var k := LastOccurrence(t, MEDIA);
    if k >= 0 then
      && Collapse(BaseSegments(dir, target) + Split(t[..k] + "media", '/'), []) == ["xl", "media"]
      && DotFree(Split(t[k + |MEDIA|..], '/'))
    else if target[0] == '/' then target == "/" + t && "xl/" <= t && DotFree(Split(t, '/'))
    else if "xl/" <= t then Collapse(Split(dir, '/'), []) == [] && DotFree(Split(t, '/'))
    else DotFree(Split(dir, '/')) && DotFree(Split(t, '/'))
  }

  lemma MediaSegments(t: string, k: nat)
    requires OccursAt(t, MEDIA, k)
    ensures Split(t, '/') == Split(t[..k] + "media", '/') + Split(t[k + |MEDIA|..], '/')
  {
    var rest := t[k + |MEDIA|..];
    assert MEDIA == "media" + ['/'];
    assert t == t[..k] + MEDIA + rest;
    assert t == (t[..k] + "media") + ['/'] + rest;
    SplitConcat(t[..k] + "media", rest, '/');
  }

  lemma MediaPrefix(rest: string)
    ensures "/" + ("xl/" + MEDIA + rest) == Flat(["xl", "media"] + Split(rest, '/'))
    ensures SlashFree(["xl", "media"]) && DotFree(["xl", "media"])
  {
    BelowXl("media", rest);
    GlueMedia(MEDIA, "media", rest);
  }

  lemma GlueMedia(media: string, folder: string, rest: string)
    requires media == folder + "/"
    ensures "xl/" + media + rest == "xl/" + (folder + "/" + rest)
  {
  }

  lemma BelowXl(folder: string, rest: string)
    requires '/' !in folder
    ensures "/" + ("xl/" + (folder + "/" + rest)) == Flat(["xl", folder] + Split(rest, '/'))
  {
    SplitWhole(folder, '/');
    SplitConcat(folder, rest, '/');
    assert folder + ['/'] + rest == folder + "/" + rest;
    XlPrefix(folder + "/" + rest);
    assert ["xl"] + ([folder] + Split(rest, '/')) == ["xl", folder] + Split(rest, '/');
  }

  lemma MediaTarget(dir: string, file: string, target: string, k: nat)
    requires '/' !in file && target != "" && OccursAt(LStripSlashes(target), MEDIA, k)
    ensures var t := LStripSlashes(target);
            "/" + ("xl/" + MEDIA + t[k + |MEDIA|..]) == Resolve("/" + dir + "/" + file, target)
            <==> DotFree(Split(t[k + |MEDIA|..], '/'))
                 && Collapse(BaseSegments(dir, target) + Split(t[..k] + "media", '/'), []) == ["xl", "media"]
  {
    var t, base := LStripSlashes(target), BaseSegments(dir, target);
    var head, rest := Split(t[..k] + "media", '/'), Split(t[k + |MEDIA|..], '/');
    ResolveOnSegments(dir, file, target);
    MediaSegments(t, k);
    assert base + Split(t, '/') == (base + head) + rest;
    MediaPrefix(t[k + |MEDIA|..]);
    BaseIsSlashFree(dir, target);
    SplitIsSlashFree(t[..k] + "media");
    SplitIsSlashFree(t[k + |MEDIA|..]);
    PrefixAgrees(["xl", "media"], base + head, rest);
  }

  /** A drawing's targets that are a path only are resolved as RFC 3986 says exactly when they
      conform, for any folder below /xl/. */
  lemma DrawingPathIsRfcIff(dir: string, file: string, target: string)
    requires "xl/" <= dir + "/" + file && '/' !in file && target != ""
    ensures "/" + DrawingTarget(dir, target) == Resolve("/" + dir + "/" + file, target) <==> DrawingConforms(dir, target)
  {
    var t := LStripSlashes(target);
    XlHead(dir, file);
    if target[0] == '/' {
      BlanksCollapse(target);
      SplitAfterSlashes(target);
    }
    if LastOccurrence(t, MEDIA) >= 0 {
      MediaTarget(dir, file, target, LastOccurrence(t, MEDIA));
    } else if "xl/" <= t {
      XlTarget(dir, file, target);
    } else {
      PlainTarget(dir, dir, file, target);
      if target[0] != '/' && DotFree(Split(dir, '/')) {
        CollapseDotFree(Split(dir, '/'), []);
      }
    }
  }

  lemma SplitTwo(a: string, b: string)
    requires '/' !in a && '/' !in b
    ensures Split(a + "/" + b, '/') == [a, b]
  {
    SplitWhole(a, '/');
    SplitWhole(b, '/');
    SplitConcat(a, b, '/');
    assert a + ['/'] + b == a + "/" + b;
  }

  lemma SiblingCollapses(folder: string, sibling: string)
    requires !IsDots(folder) && !IsDots(sibling)
    ensures Collapse(["xl", folder] + ["..", sibling], []) == ["xl", sibling]
  {
    assert ["xl", folder] + ["..", sibling] == ["xl", folder] + ([".."] + [sibling]);
    CollapseDotFree(["xl", folder], []);
    CollapseConcat(["xl", folder], [".."] + [sibling], []);
    CollapseConcat([".."], [sibling], ["xl", folder]);
    assert [] + ["xl", folder] == ["xl", folder] && ["xl"] + [sibling] == ["xl", sibling];
    assert [".."][1..] == [] && ButLast(["xl", folder]) == ["xl"];
    CollapseDotFree([sibling], ["xl"]);
  }

  /** The usual target, from a drawing in a folder right below /xl/, conforms. */
  lemma UsualMediaConforms(folder: string, name: string)
    requires '/' !in folder && !IsDots(folder) && '/' !in name && !IsDots(name)
    ensures DrawingConforms("xl" + "/" + folder, "../" + MEDIA + name)
  {
    var target := "../" + MEDIA + name;
    LastMedia("../", name);
    assert target[0] == '.' && LStripSlashes(target) == target;
    assert target[..3] == "../" && target[3 + |MEDIA|..] == name;
    SplitTwo("xl", folder);
    SplitTwo("..", "media");
    assert "../" + "media" == ".." + "/" + "media";
    SiblingCollapses(folder, "media");
    SplitWhole(name, '/');
  }

  /** The same condition for the workbook's own targets, which are relative to its folder. */
  predicate WorkbookConforms(target: string)
    requires target != ""
  {
    var t := LStripSlashes(target);
    DotFree(Split(t, '/')) && if target[0] == '/' then target == "/" + t && "xl/" <= t else !("xl/" <= t)
  }

  lemma GlueXl(xl: string, t: string)
    requires xl == "xl"
    ensures "xl/" + t == xl + "/" + t
  {
  }

  lemma PlainFromXl(xl: string, file: string, target: string)
    requires xl == "xl" && target != "" && '/' !in file && !("xl/" <= LStripSlashes(target))
    ensures "/" + (xl + "/" + LStripSlashes(target)) == Resolve("/" + xl + "/" + file, target) <==> WorkbookConforms(target)
  {
    SplitWhole(xl, '/');
    CollapseDotFree([xl], []);
    PlainTarget(xl, xl, file, target);
    if target[0] == '/' {
      BlanksCollapse(target);
    }
  }

  lemma PrefixedFromXl(xl: string, file: string, target: string)
    requires xl == "xl" && target != "" && '/' !in file && "xl/" <= LStripSlashes(target)
    ensures "/" + LStripSlashes(target) == Resolve("/" + xl + "/" + file, target) <==> WorkbookConforms(target)
  {
    SplitWhole(xl, '/');
    CollapseDotFree([xl], []);
    XlTarget(xl, file, target);
    if target[0] == '/' {
      BlanksCollapse(target);
      SplitAfterSlashes(target);
    }
  }

  lemma FromXl(xl: string, file: string, target: string)
    requires xl == "xl" && target != "" && '/' !in file
    ensures "/" + WorkbookTarget(target) == Resolve("/" + xl + "/" + file, target) <==> WorkbookConforms(target)
  {
    if "xl/" <= LStripSlashes(target) {
      PrefixedFromXl(xl, file, target);
    } else {
      GlueXl(xl, LStripSlashes(target));
      PlainFromXl(xl, file, target);
    }
  }
}
