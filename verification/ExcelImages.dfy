/** Pictures embedded in a workbook: following the relationships from the workbook over its
    sheets and drawings to the images. */
module ExcelImages {
  import opened Text
  import opened ExcelTargets

  // ---------------------------------------------------------------- relationships

  /** A relationship as found in the file; an absent target reads as empty. */
  datatype Relationship = Relationship(id: string, target: string)

  predicate Usable(rel: Relationship) {
    rel.id != "" && rel.target != ""
  }

  /** The target of the last usable relationship with the given id. */
  function LastTarget(rels: seq<Relationship>, id: string): Option<string> {
    if rels == [] then None
    else
      var last := rels[|rels| - 1];
      if Usable(last) && last.id == id then Some(last.target) else LastTarget(rels[..|rels| - 1], id)
  }

  /** Entry k is the one that counts for the id: usable, and no usable one with that id follows. */
  ghost predicate Counts(rels: seq<Relationship>, id: string, k: nat) {
    && k < |rels| && rels[k].id == id != "" && rels[k].target != ""
    && forall j :: k < j < |rels| && rels[j].id == id ==> rels[j].target == ""
  }

  ghost predicate LeadsTo(rels: seq<Relationship>, id: string, target: string) {
    exists k: nat :: Counts(rels, id, k) && rels[k].target == target
  }

  lemma {:induction false} LastTargetIff(rels: seq<Relationship>, id: string, target: string)
    ensures LastTarget(rels, id) == Some(target) <==> LeadsTo(rels, id, target)
  {
    if rels != [] {
      var before, last := rels[..|rels| - 1], rels[|rels| - 1];
      LastTargetIff(before, id, target);
      if Usable(last) && last.id == id {
        assert Counts(rels, id, |rels| - 1);
      } else {
        assert forall k: nat :: Counts(rels, id, k) <==> Counts(before, id, k);
      }
    }
  }

  /** `resolved` gives each id the resolution of its last target, and has no other ids. */
  ghost predicate Resolves(resolved: map<string, string>, rels: seq<Relationship>, resolve: string -> string) {
    && (forall id :: id in resolved <==> LastTarget(rels, id).Some?)
    && (forall id :: id in resolved ==> resolved[id] == resolve(LastTarget(rels, id).value))
  }

  lemma ResolvesSnoc(resolved: map<string, string>, rels: seq<Relationship>, rel: Relationship, resolve: string -> string)
    requires Resolves(resolved, rels, resolve)
    ensures Resolves(if Usable(rel) then resolved[rel.id := resolve(rel.target)] else resolved, rels + [rel], resolve)
  {
    assert (rels + [rel])[..|rels|] == rels;
  }

  /** The loop the three parsers share; `resolve` is what they differ in. */
  method ParseRelationships(rels: seq<Relationship>, resolve: string -> string) returns (resolved: map<string, string>)
    ensures Resolves(resolved, rels, resolve)
  {
    resolved := map[];
    for i := 0 to |rels|
      invariant Resolves(resolved, rels[..i], resolve)
    {
      ResolvesSnoc(resolved, rels[..i], rels[i], resolve);
      assert rels[..i + 1] == rels[..i] + [rels[i]];
      if rels[i].id != "" && rels[i].target != "" {
        resolved := resolved[rels[i].id := resolve(rels[i].target)];
      }
    }
    assert rels[..|rels|] == rels;
  }

  // ---------------------------------------------------------------- extraction

  /** An anchor of a drawing with the id of its picture, if it has one. */
  datatype Anchor = Anchor(row: int, col: int, embed: Option<string>)

  /** What the files of a workbook say, each for its path, and which of them can be read.
      `drawingId` is None where a sheet has no drawing. */
  datatype Workbook = Workbook(
    names: set<string>,
    readable: string -> bool,
    sheetIds: seq<string>,
    relationships: string -> seq<Relationship>,
    drawingId: string -> Option<string>,
    anchors: string -> seq<Anchor>)

  datatype Image = Image(sheet: nat, row: int, col: int, path: string)

  function RelsPath(path: string): string
    requires '/' in path
  {
    RSplit(path).0 + "/_rels/" + RSplit(path).1 + ".rels"
  }

  lemma RelsPathOfFile(dir: string, file: string)
    requires '/' !in file
    ensures '/' in dir + "/" + file
    ensures RSplit(dir + "/" + file) == (dir, file)
    ensures RelsPath(dir + "/" + file) == dir + "/_rels/" + file + ".rels"
  {
    var path := dir + "/" + file;
    assert path[|dir|] == '/';
    var (dir', file') := RSplit(path);
    LastSeparator(dir, file, dir', file', '/');
  }

  const WORKBOOK_RELS := "xl/_rels/workbook.xml.rels"

  function Listed(wb: Workbook, path: string): Option<string> {
    if path in wb.names then Some(path) else None
  }

  function SheetPath(wb: Workbook, i: nat): (path: Option<string>)
    requires i < |wb.sheetIds|
    ensures path.Some? ==> '/' in path.value
  {
    match LastTarget(wb.relationships(WORKBOOK_RELS), wb.sheetIds[i])
    case None => None
    case Some(target) => Listed(wb, WorkbookTarget(target))
  }

  function DrawingPath(wb: Workbook, sheet: string, id: string): (path: Option<string>)
    requires '/' in sheet
    ensures path.Some? ==> '/' in path.value
  {
    match LastTarget(wb.relationships(RelsPath(sheet)), id)
    case None => None
    case Some(target) => Listed(wb, SheetTarget(RSplit(sheet).0, target))
  }

  function MediaPath(wb: Workbook, drawing: string, id: string): Option<string>
    requires '/' in drawing
  {
    match LastTarget(wb.relationships(RelsPath(drawing)), id)
    case None => None
    case Some(target) => Listed(wb, DrawingTarget(RSplit(drawing).0, target))
  }

  /** The outcome of reading: `Unreadable` stands for any exception. */
  datatype Reading = Images(images: seq<Image>) | Unreadable

  /** The member of the archive that anchor k leads to, if any. */
  function LinkAt(wb: Workbook, drawing: string, k: nat): Option<string>
    requires '/' in drawing && k < |wb.anchors(drawing)|
  {
    match wb.anchors(drawing)[k].embed
    case None => None
    case Some(id) => MediaPath(wb, drawing, id)
  }

  /** What the next anchor adds to the images before it, given where it leads to. */
  function ReadNext(wb: Workbook, before: Reading, link: Option<string>, sheet: nat, anchor: Anchor): Reading {
    if before.Unreadable? || link.None? then before
    else if wb.readable(link.value) then Images(before.images + [Image(sheet, anchor.row, anchor.col, link.value)])
    else Unreadable
  }

  function AnchorImages(wb: Workbook, drawing: string, sheet: nat, n: nat): Reading
    requires '/' in drawing && n <= |wb.anchors(drawing)|
  {
    if n == 0 then Images([])
    else ReadNext(wb, AnchorImages(wb, drawing, sheet, n - 1), LinkAt(wb, drawing, n - 1), sheet, wb.anchors(drawing)[n - 1])
  }

  /** The drawing that the sheet at position `i` shows, None if there is none to follow. */
  function SheetDrawing(wb: Workbook, i: nat): (drawing: Option<string>)
    requires i < |wb.sheetIds|
    ensures drawing.Some? ==> '/' in drawing.value
  {
    match SheetPath(wb, i)
    case None => None
    case Some(sheet) =>
      match wb.drawingId(sheet)
      case None => None
      case Some(id) =>
        match DrawingPath(wb, sheet, id)
        case None => None
        case Some(drawing) => if RelsPath(sheet) in wb.names && RelsPath(drawing) in wb.names then Some(drawing) else None
  }

  predicate SheetReadable(wb: Workbook, i: nat)
    requires i < |wb.sheetIds|
  {
    match SheetPath(wb, i)
    case None => true
    case Some(sheet) => RelsPath(sheet) in wb.names ==> wb.readable(RelsPath(sheet)) && wb.readable(sheet)
  }

  function SheetImages(wb: Workbook, i: nat): Reading
    requires i < |wb.sheetIds|
  {
    if !SheetReadable(wb, i) then Unreadable
    else match SheetDrawing(wb, i)
      case None => Images([])
      case Some(drawing) =>
        if wb.readable(RelsPath(drawing)) && wb.readable(drawing)
        then AnchorImages(wb, drawing, i + 1, |wb.anchors(drawing)|)
        else Unreadable
  }

  /** Without these two files nothing is extracted. */
  predicate Opens(wb: Workbook) {
    forall path :: path in {"xl/workbook.xml", WORKBOOK_RELS} ==> path in wb.names && wb.readable(path)
  }

  function Readings(wb: Workbook): seq<Reading> {
    seq(|wb.sheetIds|, i requires 0 <= i < |wb.sheetIds| => SheetImages(wb, i))
  }

  /** The images of all sheets before the first that cannot be read. */
  function Readable(readings: seq<Reading>): seq<Image> {
    if readings == [] || readings[0].Unreadable? then [] else readings[0].images + Readable(readings[1..])
  }

  lemma {:induction false} ReadableIff(readings: seq<Reading>, image: Image)
    ensures image in Readable(readings) <==>
              exists i :: 0 <= i < |readings| && (forall j :: 0 <= j <= i ==> readings[j].Images?) && image in readings[i].images
  {
    if readings != [] && readings[0].Images? {
      var rest := readings[1..];
      ReadableIff(rest, image);
      if i :| 0 <= i < |rest| && (forall j :: 0 <= j <= i ==> rest[j].Images?) && image in rest[i].images {
        assert forall j :: 0 <= j <= i + 1 ==> readings[j].Images? by {
          forall j | 0 <= j <= i + 1 ensures readings[j].Images? {
            assert j > 0 ==> readings[j] == rest[j - 1];
          }
        }
        assert readings[i + 1] == rest[i];
      }
      if i :| 0 < i < |readings| && (forall j :: 0 <= j <= i ==> readings[j].Images?) && image in readings[i].images {
        assert rest[i - 1] == readings[i];
      }
    }
  }

  function Extracted(wb: Workbook): seq<Image> {
    if Opens(wb) then Readable(Readings(wb)) else []
  }

  // ---------------------------------------------------------------- what is extracted

  /** Anchor k of a drawing leads to a member of the archive. */
  predicate LinksTo(wb: Workbook, drawing: string, k: nat, path: string) {
    '/' in drawing && k < |wb.anchors(drawing)| && LinkAt(wb, drawing, k) == Some(path)
  }

  ghost predicate IsUnreadableLink(wb: Workbook, drawing: string, k: nat) {
    exists path :: LinksTo(wb, drawing, k, path) && !wb.readable(path)
  }

  ghost predicate AnyUnreadable(wb: Workbook, drawing: string, n: nat) {
    exists k: nat :: k < n && IsUnreadableLink(wb, drawing, k)
  }

  /** The image is the one that anchor k leads to, at the anchor's cell. */
  ghost predicate IsImageOf(wb: Workbook, drawing: string, sheet: nat, k: nat, image: Image) {
    && LinksTo(wb, drawing, k, image.path)
    && image == Image(sheet, wb.anchors(drawing)[k].row, wb.anchors(drawing)[k].col, image.path)
  }

  /** `at` lists, from left to right, those of the first `n` anchors that lead somewhere, and
      `images` their images. */
  ghost predicate ListsLinks(wb: Workbook, drawing: string, sheet: nat, n: nat, at: seq<nat>, images: seq<Image>) {
    && |at| == |images|
    && (forall i, j :: 0 <= i < j < |at| ==> at[i] < at[j])
    && (forall j :: 0 <= j < |at| ==> at[j] < n && IsImageOf(wb, drawing, sheet, at[j], images[j]))
    && (forall k: nat, path :: k < n && LinksTo(wb, drawing, k, path) ==> k in at)
  }

  /** The images of a drawing are those its anchors lead to, in the order of the anchors; the
      drawing is unreadable exactly when one of these files is. */
  ghost predicate IsReadingOf(wb: Workbook, drawing: string, sheet: nat, n: nat, reading: Reading) {
    && (reading.Unreadable? <==> AnyUnreadable(wb, drawing, n))
    && (reading.Images? ==> exists at :: ListsLinks(wb, drawing, sheet, n, at, reading.images))
  }

  lemma LinksSnoc(wb: Workbook, drawing: string, sheet: nat, n: nat, at: seq<nat>, images: seq<Image>, image: Image)
    requires ListsLinks(wb, drawing, sheet, n, at, images) && IsImageOf(wb, drawing, sheet, n, image)
    ensures ListsLinks(wb, drawing, sheet, n + 1, at + [n], images + [image])
  {
    var at', images' := at + [n], images + [image];
    forall j | 0 <= j < |at'| ensures at'[j] < n + 1 && IsImageOf(wb, drawing, sheet, at'[j], images'[j]) {
      if j < |at| {
        assert at'[j] == at[j] && images'[j] == images[j];
      }
    }
    forall k: nat, path | k < n + 1 && LinksTo(wb, drawing, k, path) ensures k in at' {
      if k == n {
        assert at'[|at|] == k;
      }
    }
  }

  lemma UnreadableLinkIff(wb: Workbook, drawing: string, k: nat)
    requires '/' in drawing && k < |wb.anchors(drawing)|
    ensures IsUnreadableLink(wb, drawing, k) <==> LinkAt(wb, drawing, k).Some? && !wb.readable(LinkAt(wb, drawing, k).value)
  {
    if LinkAt(wb, drawing, k).Some? {
      assert LinksTo(wb, drawing, k, LinkAt(wb, drawing, k).value);
    }
  }

  lemma AnyUnreadableSnoc(wb: Workbook, drawing: string, n: nat)
    ensures AnyUnreadable(wb, drawing, n + 1) <==> AnyUnreadable(wb, drawing, n) || IsUnreadableLink(wb, drawing, n)
  {
  }

  lemma ReadNextUnreadableIff(wb: Workbook, before: Reading, link: Option<string>, sheet: nat, anchor: Anchor)
    ensures ReadNext(wb, before, link, sheet, anchor).Unreadable? <==>
              before.Unreadable? || (link.Some? && !wb.readable(link.value))
  {
  }

  lemma {:induction false} AnchorsUnreadableIff(wb: Workbook, drawing: string, sheet: nat, n: nat)
    requires '/' in drawing && n <= |wb.anchors(drawing)|
    ensures AnchorImages(wb, drawing, sheet, n).Unreadable? <==> AnyUnreadable(wb, drawing, n)
  {
    if n > 0 {
      AnchorsUnreadableIff(wb, drawing, sheet, n - 1);
      UnreadableLinkIff(wb, drawing, n - 1);
      AnyUnreadableSnoc(wb, drawing, n - 1);
      ReadNextUnreadableIff(wb, AnchorImages(wb, drawing, sheet, n - 1), LinkAt(wb, drawing, n - 1), sheet, wb.anchors(drawing)[n - 1]);
    }
  }

  lemma {:induction false} AnchorsListed(wb: Workbook, drawing: string, sheet: nat, n: nat) returns (at: seq<nat>)
    requires '/' in drawing && n <= |wb.anchors(drawing)| && AnchorImages(wb, drawing, sheet, n).Images?
    ensures ListsLinks(wb, drawing, sheet, n, at, AnchorImages(wb, drawing, sheet, n).images)
  {
    at := [];
    if n > 0 {
      at := AnchorsListed(wb, drawing, sheet, n - 1);
      var anchor, images := wb.anchors(drawing)[n - 1], AnchorImages(wb, drawing, sheet, n - 1).images;
      if LinkAt(wb, drawing, n - 1).Some? {
        var path := LinkAt(wb, drawing, n - 1).value;
        LinksSnoc(wb, drawing, sheet, n - 1, at, images, Image(sheet, anchor.row, anchor.col, path));
        at := at + [n - 1];
      }
    }
  }

  lemma AnchorsAreRead(wb: Workbook, drawing: string, sheet: nat, n: nat)
    requires '/' in drawing && n <= |wb.anchors(drawing)|
    ensures IsReadingOf(wb, drawing, sheet, n, AnchorImages(wb, drawing, sheet, n))
  {
    AnchorsUnreadableIff(wb, drawing, sheet, n);
    if AnchorImages(wb, drawing, sheet, n).Images? {
      var at := AnchorsListed(wb, drawing, sheet, n);
    }
  }

  /** The files that are read for the sheet at position `i`. */
  ghost predicate Needs(wb: Workbook, i: nat, path: string) {
    && i < |wb.sheetIds|
    && SheetPath(wb, i).Some?
    && RelsPath(SheetPath(wb, i).value) in wb.names
    && (|| path == RelsPath(SheetPath(wb, i).value)
        || path == SheetPath(wb, i).value
        || (SheetDrawing(wb, i).Some? && DrawingNeeds(wb, SheetDrawing(wb, i).value, path)))
  }

  ghost predicate DrawingNeeds(wb: Workbook, drawing: string, path: string)
    requires '/' in drawing
  {
    path == RelsPath(drawing) || path == drawing || exists k: nat :: LinksTo(wb, drawing, k, path)
  }

  ghost predicate FilesReadable(wb: Workbook, i: nat) {
    forall path :: Needs(wb, i, path) ==> wb.readable(path)
  }

  /** A sheet is read exactly when all the files it needs can be. */
  lemma SheetReadableIff(wb: Workbook, i: nat)
    requires i < |wb.sheetIds|
    ensures SheetImages(wb, i).Images? <==> FilesReadable(wb, i)
  {
    var sheet := SheetPath(wb, i);
    if sheet.Some? && RelsPath(sheet.value) in wb.names {
      assert Needs(wb, i, RelsPath(sheet.value)) && Needs(wb, i, sheet.value);
      if SheetDrawing(wb, i).Some? {
        var drawing := SheetDrawing(wb, i).value;
        DrawingUnreadableIff(wb, drawing, i + 1);
        assert forall path :: DrawingNeeds(wb, drawing, path) ==> Needs(wb, i, path);
      }
    }
  }

  lemma DrawingUnreadableIff(wb: Workbook, drawing: string, sheet: nat)
    requires '/' in drawing
    ensures (!wb.readable(RelsPath(drawing)) || !wb.readable(drawing)
             || AnchorImages(wb, drawing, sheet, |wb.anchors(drawing)|).Unreadable?)
            <==> exists path :: DrawingNeeds(wb, drawing, path) && !wb.readable(path)
  {
    AnchorsAreRead(wb, drawing, sheet, |wb.anchors(drawing)|);
    assert DrawingNeeds(wb, drawing, RelsPath(drawing)) && DrawingNeeds(wb, drawing, drawing);
    if k: nat :| IsUnreadableLink(wb, drawing, k) {
      var path :| LinksTo(wb, drawing, k, path) && !wb.readable(path);
      assert DrawingNeeds(wb, drawing, path);
    }
    if path :| DrawingNeeds(wb, drawing, path) && !wb.readable(path) && path != RelsPath(drawing) && path != drawing {
      var k: nat :| LinksTo(wb, drawing, k, path);
      assert IsUnreadableLink(wb, drawing, k);
    }
  }

  ghost predicate ShowsImage(wb: Workbook, drawing: string, sheet: nat, image: Image) {
    exists k: nat :: IsImageOf(wb, drawing, sheet, k, image)
  }

  lemma ListedIff(wb: Workbook, drawing: string, sheet: nat, at: seq<nat>, images: seq<Image>, image: Image)
    requires '/' in drawing && ListsLinks(wb, drawing, sheet, |wb.anchors(drawing)|, at, images)
    ensures image in images <==> ShowsImage(wb, drawing, sheet, image)
  {
    if k: nat :| IsImageOf(wb, drawing, sheet, k, image) {
      var j :| 0 <= j < |at| && at[j] == k;
      assert IsImageOf(wb, drawing, sheet, at[j], images[j]);
      assert images[j] == image;
    }
    if j :| 0 <= j < |images| && images[j] == image {
      assert IsImageOf(wb, drawing, sheet, at[j], image);
    }
  }

  /** Some anchor in the drawing of the sheet at position `i` leads to the image. */
  ghost predicate OnSheet(wb: Workbook, i: nat, image: Image) {
    && i < |wb.sheetIds|
    && SheetDrawing(wb, i).Some?
    && ShowsImage(wb, SheetDrawing(wb, i).value, i + 1, image)
  }

  /** The images of a readable sheet are those the anchors of its drawing lead to. */
  lemma SheetImagesIff(wb: Workbook, i: nat, image: Image)
    requires i < |wb.sheetIds| && SheetImages(wb, i).Images?
    ensures image in SheetImages(wb, i).images <==> OnSheet(wb, i, image)
  {
    if SheetDrawing(wb, i).Some? {
      var drawing := SheetDrawing(wb, i).value;
      var at := AnchorsListed(wb, drawing, i + 1, |wb.anchors(drawing)|);
      ListedIff(wb, drawing, i + 1, at, SheetImages(wb, i).images, image);
    }
  }

  /** A sheet is read if and only if all the files it needs can be; then its images are those
      the anchors of its drawing lead to. */
  ghost predicate IsSheetReading(wb: Workbook, i: nat, reading: Reading) {
    && (reading.Images? <==> FilesReadable(wb, i))
    && (reading.Images? ==> forall image :: image in reading.images <==> OnSheet(wb, i, image))
  }

  lemma SheetIsRead(wb: Workbook, i: nat)
    requires i < |wb.sheetIds|
    ensures IsSheetReading(wb, i, SheetImages(wb, i))
  {
    SheetReadableIff(wb, i);
    if SheetImages(wb, i).Images? {
      forall image ensures image in SheetImages(wb, i).images <==> OnSheet(wb, i, image) {
        SheetImagesIff(wb, i, image);
      }
    }
  }

  /** All files that the sheets up to position `i` need can be read. */
  ghost predicate ReadableUpTo(wb: Workbook, i: nat) {
    forall j: nat :: j <= i ==> FilesReadable(wb, j)
  }

  lemma ReadingsUpTo(wb: Workbook, i: nat)
    requires i < |wb.sheetIds|
    ensures (forall j :: 0 <= j <= i ==> Readings(wb)[j].Images?) <==> ReadableUpTo(wb, i)
  {
    forall j: nat | j <= i ensures Readings(wb)[j].Images? <==> FilesReadable(wb, j) {
      SheetReadableIff(wb, j);
    }
  }

  /** The way from the workbook to an image: a sheet and a drawing, each with its folder and its
      file, the drawing's id on the sheet, and the anchor with its picture's id; the targets are
      those of the relationships that are followed. */
  datatype Chain = Chain(
    sheetDir: string, sheetFile: string, sheetTarget: string,
    drawingId: string, drawingDir: string, drawingFile: string, drawingTarget: string,
    anchor: nat, embed: string, mediaTarget: string)

  ghost predicate IsSheetOf(wb: Workbook, i: nat, c: Chain) {
    var sheet := c.sheetDir + "/" + c.sheetFile;
    && i < |wb.sheetIds| && '/' !in c.sheetFile
    && LeadsTo(wb.relationships("xl/_rels/workbook.xml.rels"), wb.sheetIds[i], c.sheetTarget)
    && WorkbookTarget(c.sheetTarget) == sheet && sheet in wb.names
  }

  ghost predicate IsDrawingOf(wb: Workbook, c: Chain) {
    var sheet, drawing := c.sheetDir + "/" + c.sheetFile, c.drawingDir + "/" + c.drawingFile;
    var rels := c.sheetDir + "/_rels/" + c.sheetFile + ".rels";
    && rels in wb.names && wb.drawingId(sheet) == Some(c.drawingId) && '/' !in c.drawingFile
    && LeadsTo(wb.relationships(rels), c.drawingId, c.drawingTarget)
    && SheetTarget(c.sheetDir, c.drawingTarget) == drawing && drawing in wb.names
  }

  ghost predicate IsMediaOf(wb: Workbook, c: Chain, sheet: nat, image: Image) {
    var drawing, rels := c.drawingDir + "/" + c.drawingFile, c.drawingDir + "/_rels/" + c.drawingFile + ".rels";
    && rels in wb.names && c.anchor < |wb.anchors(drawing)|
    && wb.anchors(drawing)[c.anchor] == Anchor(image.row, image.col, Some(c.embed))
    && LeadsTo(wb.relationships(rels), c.embed, c.mediaTarget)
    && DrawingTarget(c.drawingDir, c.mediaTarget) == image.path && image.path in wb.names
    && image.sheet == sheet
  }

  ghost predicate ChainLeads(wb: Workbook, i: nat, c: Chain, image: Image) {
    IsSheetOf(wb, i, c) && IsDrawingOf(wb, c) && IsMediaOf(wb, c, i + 1, image)
  }

  lemma ChainsSheet(wb: Workbook, i: nat, c: Chain)
    requires i < |wb.sheetIds| && '/' !in c.sheetFile
    ensures IsSheetOf(wb, i, c) ==> SheetPath(wb, i) == Some(c.sheetDir + "/" + c.sheetFile)
  {
    LastTargetIff(wb.relationships(WORKBOOK_RELS), wb.sheetIds[i], c.sheetTarget);
  }

  lemma ChainsDrawing(wb: Workbook, c: Chain)
    requires '/' !in c.sheetFile && IsDrawingOf(wb, c)
    ensures var sheet := c.sheetDir + "/" + c.sheetFile;
            '/' in sheet && RelsPath(sheet) in wb.names && DrawingPath(wb, sheet, c.drawingId) == Some(c.drawingDir + "/" + c.drawingFile)
  {
    RelsPathOfFile(c.sheetDir, c.sheetFile);
    LastTargetIff(wb.relationships(c.sheetDir + "/_rels/" + c.sheetFile + ".rels"), c.drawingId, c.drawingTarget);
  }

  lemma ChainsMedia(wb: Workbook, c: Chain, sheet: nat, image: Image)
    requires '/' !in c.drawingFile && IsMediaOf(wb, c, sheet, image)
    ensures var drawing := c.drawingDir + "/" + c.drawingFile;
            '/' in drawing && RelsPath(drawing) in wb.names && IsImageOf(wb, drawing, sheet, c.anchor, image)
  {
    RelsPathOfFile(c.drawingDir, c.drawingFile);
    LastTargetIff(wb.relationships(c.drawingDir + "/_rels/" + c.drawingFile + ".rels"), c.embed, c.mediaTarget);
  }

  lemma ChainIsOnSheet(wb: Workbook, i: nat, c: Chain, image: Image)
    requires ChainLeads(wb, i, c, image)
    ensures OnSheet(wb, i, image)
  {
    ChainsSheet(wb, i, c);
    ChainsDrawing(wb, c);
    ChainsMedia(wb, c, i + 1, image);
    assert SheetDrawing(wb, i) == Some(c.drawingDir + "/" + c.drawingFile);
  }

  lemma SheetHasChain(wb: Workbook, i: nat, image: Image) returns (c: Chain)
    requires OnSheet(wb, i, image)
    ensures ChainLeads(wb, i, c, image)
  {
    var sheet, drawing := SheetPath(wb, i).value, SheetDrawing(wb, i).value;
    var id, k: nat :| wb.drawingId(sheet) == Some(id) && IsImageOf(wb, drawing, i + 1, k, image);
    var (sheetDir, sheetFile) := RSplit(sheet);
    var (drawingDir, drawingFile) := RSplit(drawing);
    RelsPathOfFile(sheetDir, sheetFile);
    RelsPathOfFile(drawingDir, drawingFile);
    var embed := wb.anchors(drawing)[k].embed.value;
    var sheetTarget := LastTarget(wb.relationships(WORKBOOK_RELS), wb.sheetIds[i]).value;
    var drawingTarget := LastTarget(wb.relationships(RelsPath(sheet)), id).value;
    var mediaTarget := LastTarget(wb.relationships(RelsPath(drawing)), embed).value;
    LastTargetIff(wb.relationships(WORKBOOK_RELS), wb.sheetIds[i], sheetTarget);
    LastTargetIff(wb.relationships(RelsPath(sheet)), id, drawingTarget);
    LastTargetIff(wb.relationships(RelsPath(drawing)), embed, mediaTarget);
    c := Chain(sheetDir, sheetFile, sheetTarget, id, drawingDir, drawingFile, drawingTarget, k, embed, mediaTarget);
  }

  lemma ExtractedFromSheet(wb: Workbook, image: Image)
    ensures image in Extracted(wb) <==>
              Opens(wb) && exists i: nat :: ReadableUpTo(wb, i) && OnSheet(wb, i, image)
  {
    var readings := Readings(wb);
    ReadableIff(readings, image);
    if i :| 0 <= i < |readings| && (forall j :: 0 <= j <= i ==> readings[j].Images?) && image in readings[i].images {
      ReadingsUpTo(wb, i);
      SheetImagesIff(wb, i, image);
    }
    if i: nat :| ReadableUpTo(wb, i) && OnSheet(wb, i, image) {
      ReadingsUpTo(wb, i);
      assert readings[i] == SheetImages(wb, i);
      SheetImagesIff(wb, i, image);
    }
  }

  /** An image is extracted exactly when the workbook opens, a chain of relationships leads to it
      from some sheet, and everything needed for the sheets up to that one can be read. */
  lemma ExtractedIff(wb: Workbook, image: Image)
    ensures image in Extracted(wb) <==>
              Opens(wb) && exists i: nat, c :: ReadableUpTo(wb, i) && ChainLeads(wb, i, c, image)
  {
    ExtractedFromSheet(wb, image);
    if i: nat :| ReadableUpTo(wb, i) && OnSheet(wb, i, image) {
      var c := SheetHasChain(wb, i, image);
    }
    if i: nat, c :| ReadableUpTo(wb, i) && ChainLeads(wb, i, c, image) {
      ChainIsOnSheet(wb, i, c, image);
    }
  }

  // ---------------------------------------------------------------- extracting

  lemma {:induction false} NoEmptyId(rels: seq<Relationship>)
    ensures LastTarget(rels, "").None?
  {
    if rels != [] {
      NoEmptyId(rels[..|rels| - 1]);
    }
  }

  lemma UnreadableStays(wb: Workbook, drawing: string, sheet: nat, k: nat, n: nat)
    requires '/' in drawing && k <= n <= |wb.anchors(drawing)|
    requires AnchorImages(wb, drawing, sheet, k).Unreadable?
    ensures AnchorImages(wb, drawing, sheet, n).Unreadable?
  {
    AnchorsUnreadableIff(wb, drawing, sheet, k);
    AnchorsUnreadableIff(wb, drawing, sheet, n);
  }

  /** How the loop below looks up an anchor's picture. */
  predicate Found(wb: Workbook, rels: map<string, string>, anchor: Anchor) {
    anchor.embed.Some? && anchor.embed.value != "" && anchor.embed.value in rels && rels[anchor.embed.value] in wb.names
  }

  lemma FoundIsLink(wb: Workbook, drawing: string, rels: map<string, string>, k: nat)
    requires '/' in drawing && k < |wb.anchors(drawing)|
    requires Resolves(rels, wb.relationships(RelsPath(drawing)), target => DrawingTarget(RSplit(drawing).0, target))
    ensures LinkAt(wb, drawing, k) ==
              var anchor := wb.anchors(drawing)[k];
              if Found(wb, rels, anchor) then Some(rels[anchor.embed.value]) else None
  {
    var relationships, anchor := wb.relationships(RelsPath(drawing)), wb.anchors(drawing)[k];
    NoEmptyId(relationships);
    if anchor.embed.Some? {
      assert anchor.embed.value in rels <==> LastTarget(relationships, anchor.embed.value).Some?;
    }
  }

  /** The loop over the anchors. */
  method ReadAnchors(wb: Workbook, drawing: string, rels: map<string, string>, sheet: nat) returns (reading: Reading)
    requires '/' in drawing
    requires Resolves(rels, wb.relationships(RelsPath(drawing)), target => DrawingTarget(RSplit(drawing).0, target))
    ensures reading == AnchorImages(wb, drawing, sheet, |wb.anchors(drawing)|)
  {
    var images := [];
    var anchors := wb.anchors(drawing);
    for k := 0 to |anchors|
      invariant AnchorImages(wb, drawing, sheet, k) == Images(images)
    {
      FoundIsLink(wb, drawing, rels, k);
      if anchors[k].embed.None? || anchors[k].embed.value == "" {
        continue;
      }
      var id := anchors[k].embed.value;
      if id !in rels || rels[id] !in wb.names {
        continue;
      }
      if !wb.readable(rels[id]) {
        UnreadableStays(wb, drawing, sheet, k + 1, |anchors|);
        return Unreadable;
      }
      images := images + [Image(sheet, anchors[k].row, anchors[k].col, rels[id])];
    }
    return Images(images);
  }

  method ExtractAnchors(wb: Workbook, drawing: string, rels: map<string, string>, sheet: nat) returns (reading: Reading)
    requires '/' in drawing
    requires Resolves(rels, wb.relationships(RelsPath(drawing)), target => DrawingTarget(RSplit(drawing).0, target))
    ensures reading == AnchorImages(wb, drawing, sheet, |wb.anchors(drawing)|)
    ensures IsReadingOf(wb, drawing, sheet, |wb.anchors(drawing)|, reading)
  {
    reading := ReadAnchors(wb, drawing, rels, sheet);
    AnchorsAreRead(wb, drawing, sheet, |wb.anchors(drawing)|);
  }

  method ExtractSheet(wb: Workbook, i: nat, wbRels: map<string, string>) returns (reading: Reading)
    requires i < |wb.sheetIds|
    requires Resolves(wbRels, wb.relationships(WORKBOOK_RELS), target => WorkbookTarget(target))
    ensures reading == SheetImages(wb, i)
    ensures IsSheetReading(wb, i, reading)
  {
    SheetIsRead(wb, i);
    var id := wb.sheetIds[i];
    if id !in wbRels || wbRels[id] !in wb.names {
      return Images([]);
    }
    var sheet := wbRels[id];
    var (dir, file) := RSplit(sheet);
    if dir + "/_rels/" + file + ".rels" !in wb.names {
      return Images([]);
    }
    if !wb.readable(RelsPath(sheet)) {
      return Unreadable;
    }
    var sheetRels := ParseRelationships(wb.relationships(RelsPath(sheet)), target => SheetTarget(dir, target));
    if !wb.readable(sheet) {
      return Unreadable;
    }
    if wb.drawingId(sheet).None? {
      return Images([]);
    }
    var drawingId := wb.drawingId(sheet).value;
    if drawingId !in sheetRels || sheetRels[drawingId] !in wb.names {
      return Images([]);
    }
    var drawing := sheetRels[drawingId];
    var (drawingDir, drawingFile) := RSplit(drawing);
    if drawingDir + "/_rels/" + drawingFile + ".rels" !in wb.names {
      return Images([]);
    }
    if !wb.readable(RelsPath(drawing)) {
      return Unreadable;
    }
    var drawingRels := ParseRelationships(wb.relationships(RelsPath(drawing)), target => DrawingTarget(drawingDir, target));
    if !wb.readable(drawing) {
      return Unreadable;
    }
    reading := ExtractAnchors(wb, drawing, drawingRels, i + 1);
  }

  method ExtractExcelImages(wb: Workbook) returns (images: seq<Image>)
    ensures images == Extracted(wb)
  {
    images := [];
    if !Opens(wb) {
      return;
    }
    var wbRels := ParseRelationships(wb.relationships(WORKBOOK_RELS), target => WorkbookTarget(target));
    ghost var readings := Readings(wb);
    for i := 0 to |wb.sheetIds|
      invariant UpTo(readings, i, images)
    {
      var reading := ExtractSheet(wb, i, wbRels);
      ReadableStep(readings, i, images);
      if reading.Unreadable? {
        return;
      }
      images := images + reading.images;
    }
    assert readings[|readings|..] == [];
  }

  ghost predicate UpTo(readings: seq<Reading>, i: nat, images: seq<Image>) {
    i <= |readings| && images + Readable(readings[i..]) == Readable(readings)
  }

  lemma ReadableStep(readings: seq<Reading>, i: nat, images: seq<Image>)
    requires i < |readings| && UpTo(readings, i, images)
    ensures readings[i].Unreadable? ==> images == Readable(readings)
    ensures readings[i].Images? ==> UpTo(readings, i + 1, images + readings[i].images)
  {
    assert readings[i..][0] == readings[i] && readings[i..][1..] == readings[i + 1..];
  }
}
