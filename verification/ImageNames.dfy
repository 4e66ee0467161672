/** The names of extracted images: the file a picture is saved to, and the link the Markdown
    serializer prints for it, which it computes on its own from a memo table. */
module ImageNames {
  import opened Text

  /** A provenance entry; None if its page number is missing or no integer. */
  datatype Provenance = Provenance(pageNo: Option<int>)

  /** `savable` says whether writing the image file succeeds. */
  datatype Picture = Picture(selfRef: string, hasImage: bool, savable: bool, prov: seq<Provenance>)

  // ---------------------------------------------------------------- file names

  /** An entry whose page number counts. */
  predicate HasPage(p: Provenance) {
    p.pageNo.Some? && p.pageNo.value > 0
  }

  /** The first positive page number of the provenance, or 1 if there is none. */
  function PageNo(prov: seq<Provenance>): (page: nat)
    ensures page >= 1
    ensures forall i :: 0 <= i < |prov| && HasPage(prov[i]) && (forall j :: 0 <= j < i ==> !HasPage(prov[j])) ==>
              page == prov[i].pageNo.value
    ensures (forall i :: 0 <= i < |prov| ==> !HasPage(prov[i])) ==> page == 1
  {
    if prov == [] then 1
    else if prov[0].pageNo.Some? && prov[0].pageNo.value > 0 then prov[0].pageNo.value
    else
      assert !HasPage(prov[0]);
      assert forall i :: 0 <= i < |prov[1..]| ==> prov[1..][i] == prov[i + 1];
      assert forall i :: 0 < i < |prov| ==> prov[i] == prov[1..][i - 1];
      PageNo(prov[1..])
  }

  function SafeSlug(slug: string): string {
    if slug == "" then "document" else slug
  }

  function AtLeastOne(n: int): nat {
    if n > 1 then n else 1
  }

  function FileName(slug: string, page: int, index: int): string {
    SafeSlug(slug) + "_p" + Decimal(AtLeastOne(page)) + "_" + Decimal(AtLeastOne(index)) + ".png"
  }

  lemma DigitsAvoid(s: string, c: char)
    requires AllAsciiDigits(s) && !IsAsciiDigit(c)
    ensures c !in s
  {
  }

  lemma DecimalIsInjective(m: nat, n: nat)
    requires Decimal(m) == Decimal(n)
    ensures m == n
  {
    ValueOfDecimal(m);
    ValueOfDecimal(n);
  }

  lemma NameParts(slug: string, p: string, i: string)
    ensures slug + "_p" + p + "_" + i + ".png" == (slug + ['_'] + ("p" + p)) + ['_'] + i + ".png"
  {
  }

  lemma NamesDiffer(slug: string, p: nat, i: nat, slug': string, p': nat, i': nat)
    requires slug + "_p" + Decimal(p) + "_" + Decimal(i) + ".png" == slug' + "_p" + Decimal(p') + "_" + Decimal(i') + ".png"
    ensures slug == slug' && p == p' && i == i'
  {
    NameParts(slug, Decimal(p), Decimal(i));
    NameParts(slug', Decimal(p'), Decimal(i'));
    var a, a' := slug + ['_'] + ("p" + Decimal(p)), slug' + ['_'] + ("p" + Decimal(p'));
    SameTail(a + ['_'] + Decimal(i), a' + ['_'] + Decimal(i'), ".png");
    DigitsAvoid(Decimal(i), '_');
    DigitsAvoid(Decimal(i'), '_');
    LastSeparator(a, Decimal(i), a', Decimal(i'), '_');
    DigitsAvoid(Decimal(p), '_');
    DigitsAvoid(Decimal(p'), '_');
    LastSeparator(slug, "p" + Decimal(p), slug', "p" + Decimal(p'), '_');
    assert ("p" + Decimal(p))[1..] == Decimal(p) && ("p" + Decimal(p'))[1..] == Decimal(p');
    DecimalIsInjective(p, p');
    DecimalIsInjective(i, i');
  }

  /** Two names are the same exactly when slug, page and index are, after the clamping that
      the naming itself applies; on its proper domain it is injective. */
  lemma FileNameInjective(slug: string, page: int, index: int, slug': string, page': int, index': int)
    ensures FileName(slug, page, index) == FileName(slug', page', index') <==>
              SafeSlug(slug) == SafeSlug(slug') && AtLeastOne(page) == AtLeastOne(page') && AtLeastOne(index) == AtLeastOne(index')
  {
    if FileName(slug, page, index) == FileName(slug', page', index') {
      NamesDiffer(SafeSlug(slug), AtLeastOne(page), AtLeastOne(index), SafeSlug(slug'), AtLeastOne(page'), AtLeastOne(index'));
    }
  }

  const SUFFIX := ".png"

  /** Slug, page number and index as a reader takes them from a file name: the index behind the
      last underscore, the page number, with its "p", behind the one before. */
  function ReadName(name: string): Option<(string, nat, nat)> {
    if |name| < |SUFFIX| || name[|name| - |SUFFIX|..] != SUFFIX then None
    else
      var parts := Split(name[..|name| - |SUFFIX|], '_');
      var n := |parts| - 2;
      if n >= 1 && "p" <= parts[n] && AllAsciiDigits(parts[n][1..]) && AllAsciiDigits(parts[n + 1])
      then Some((Join(parts[..n], "_"), Value(parts[n][1..]), Value(parts[n + 1])))
      else None
  }

  lemma NameSplits(slug: string, p: string, i: string)
    requires '_' !in p && '_' !in i
    ensures Split(slug + "_p" + p + "_" + i, '_') == Split(slug, '_') + ["p" + p, i]
  {
    assert slug + "_p" + p + "_" + i == slug + ['_'] + (("p" + p) + ['_'] + i);
    SplitConcat(slug, ("p" + p) + ['_'] + i, '_');
    SplitConcat("p" + p, i, '_');
    SplitWhole("p" + p, '_');
    SplitWhole(i, '_');
  }

  lemma NameReads(slug: string, p: string, i: string)
    requires AllAsciiDigits(p) && AllAsciiDigits(i)
    ensures ReadName(slug + "_p" + p + "_" + i + ".png") == Some((slug, Value(p), Value(i)))
  {
    var stem := slug + "_p" + p + "_" + i;
    assert (stem + ".png")[..|stem|] == stem;
    DigitsAvoid(p, '_');
    DigitsAvoid(i, '_');
    NameSplits(slug, p, i);
    var front, parts := Split(slug, '_'), Split(stem, '_');
    assert parts[..|front|] == front && parts[|front|] == "p" + p && parts[|front| + 1] == i;
    assert ("p" + p)[1..] == p;
    JoinSplit(slug, '_');
  }

  /** Every file name reads back as its slug, page number and index, whatever underscores and
      digits the slug has, with the defaults for an empty slug and for numbers below one. */
  lemma NameRoundTrip(slug: string, page: int, index: int)
    ensures ReadName(FileName(slug, page, index))
            == Some((if slug == "" then "document" else slug, if page < 1 then 1 else page, if index < 1 then 1 else index))
  {
    NameReads(SafeSlug(slug), Decimal(AtLeastOne(page)), Decimal(AtLeastOne(index)));
    ValueOfDecimal(AtLeastOne(page));
    ValueOfDecimal(AtLeastOne(index));
  }

  // ---------------------------------------------------------------- saving

  function NameOf(pictures: seq<Picture>, i: nat, slug: string): string
    requires i < |pictures|
  {
    FileName(slug, PageNo(pictures[i].prov), i + 1)
  }

  /** The images directory: for each file the position of the picture it shows. */
  type Directory = map<string, nat>

  function Save(dir: Directory, pictures: seq<Picture>, i: nat, slug: string): Directory
    requires i < |pictures|
  {
    if pictures[i].savable then dir[NameOf(pictures, i, slug) := i] else dir
  }

  /** Saves executed one after the other, in any given order. */
  function SaveInOrder(pictures: seq<Picture>, order: seq<nat>, slug: string): Directory
    requires forall k :: 0 <= k < |order| ==> order[k] < |pictures|
  {
    if order == [] then map[]
    else Save(SaveInOrder(pictures, order[..|order| - 1], slug), pictures, order[|order| - 1], slug)
  }

  predicate IsSaved(pictures: seq<Picture>, i: nat) {
    i < |pictures| && pictures[i].hasImage && pictures[i].savable
  }

  /** Each saved picture has its file, and there are no other files. */
  ghost predicate ShowsSaved(dir: Directory, pictures: seq<Picture>, done: set<nat>, slug: string) {
    && (forall i :: i in done && i < |pictures| && pictures[i].savable ==>
          NameOf(pictures, i, slug) in dir && dir[NameOf(pictures, i, slug)] == i)
    && (forall name :: name in dir ==>
          dir[name] in done && dir[name] < |pictures| && pictures[dir[name]].savable && name == NameOf(pictures, dir[name], slug))
  }

  lemma SaveShows(dir: Directory, pictures: seq<Picture>, i: nat, done: set<nat>, slug: string)
    requires i < |pictures| && ShowsSaved(dir, pictures, done, slug)
    ensures ShowsSaved(Save(dir, pictures, i, slug), pictures, done + {i}, slug)
  {
    forall j | j in done && j < |pictures| ensures NameOf(pictures, j, slug) == NameOf(pictures, i, slug) <==> i == j {
      DifferentPicturesDifferentNames(pictures, i, j, slug);
    }
  }

  lemma DifferentPicturesDifferentNames(pictures: seq<Picture>, i: nat, j: nat, slug: string)
    requires i < |pictures| && j < |pictures|
    ensures NameOf(pictures, i, slug) == NameOf(pictures, j, slug) <==> i == j
  {
    FileNameInjective(slug, PageNo(pictures[j].prov), j + 1, slug, PageNo(pictures[i].prov), i + 1);
  }

  /** What is saved determines the directory. */
  lemma ShownDirectoryIsUnique(dir: Directory, dir': Directory, pictures: seq<Picture>, done: set<nat>, slug: string)
    requires ShowsSaved(dir, pictures, done, slug) && ShowsSaved(dir', pictures, done, slug)
    ensures dir == dir'
  {
    assert forall name :: name in dir ==> name in dir' && dir'[name] == dir[name];
    assert forall name :: name in dir' ==> name in dir;
  }

  lemma {:induction false} AnyOrderShows(pictures: seq<Picture>, order: seq<nat>, slug: string)
    requires forall k :: 0 <= k < |order| ==> order[k] < |pictures|
    ensures ShowsSaved(SaveInOrder(pictures, order, slug), pictures, Positions(order), slug)
  {
    if order != [] {
      var before, last := order[..|order| - 1], order[|order| - 1];
      AnyOrderShows(pictures, before, slug);
      SaveShows(SaveInOrder(pictures, before, slug), pictures, last, Positions(before), slug);
      assert order == before + [last];
    }
  }

  ghost function Positions(order: seq<nat>): set<nat> {
    set i | i in order
  }

  function PicturesWithImage(pictures: seq<Picture>, n: nat): (order: seq<nat>)
    requires n <= |pictures|
    ensures forall i: nat :: i in order <==> i < n && pictures[i].hasImage
    ensures forall k :: 0 <= k < |order| ==> order[k] < |pictures|
  {
    if n == 0 then []
    else PicturesWithImage(pictures, n - 1) + (if pictures[n - 1].hasImage then [n - 1] else [])
  }

  ghost function ImageSet(pictures: seq<Picture>): set<nat> {
    set i: nat | i < |pictures| && pictures[i].hasImage
  }

  ghost predicate CoversImages(order: seq<nat>, pictures: seq<Picture>) {
    forall i: nat :: i in order <==> i in ImageSet(pictures)
  }

  lemma OrderShows(pictures: seq<Picture>, order: seq<nat>, slug: string)
    requires CoversImages(order, pictures)
    ensures forall k :: 0 <= k < |order| ==> order[k] < |pictures|
    ensures ShowsSaved(SaveInOrder(pictures, order, slug), pictures, ImageSet(pictures), slug)
  {
    assert forall k :: 0 <= k < |order| ==> order[k] in order;
    assert Positions(order) == ImageSet(pictures);
    AnyOrderShows(pictures, order, slug);
  }

  /** Different pictures never share a file: whatever order the worker threads save in, the
      directory ends up the same. */
  lemma SavesCommute(pictures: seq<Picture>, order: seq<nat>, slug: string)
    requires CoversImages(order, pictures)
    ensures (forall k :: 0 <= k < |order| ==> order[k] < |pictures|)
    ensures SaveInOrder(pictures, order, slug) == Saved(pictures, slug)
  {
    OrderShows(pictures, order, slug);
    OrderShows(pictures, PicturesWithImage(pictures, |pictures|), slug);
    ShownDirectoryIsUnique(SaveInOrder(pictures, order, slug), Saved(pictures, slug), pictures, ImageSet(pictures), slug);
  }

  /** The directory after all saves in the order of the document. */
  function Saved(pictures: seq<Picture>, slug: string): Directory {
    SaveInOrder(pictures, PicturesWithImage(pictures, |pictures|), slug)
  }

  /** The loop over the document's pictures. */
  method SaveImages(pictures: seq<Picture>, slug: string) returns (dir: Directory)
    ensures dir == Saved(pictures, slug)
    ensures ShowsSaved(dir, pictures, ImageSet(pictures), slug)
  {
    var valid: seq<nat> := [];
    for i := 0 to |pictures|
      invariant valid == PicturesWithImage(pictures, i)
    {
      if pictures[i].hasImage {
        valid := valid + [i];
      }
    }
    dir := SaveAll(pictures, valid, slug);
    OrderShows(pictures, valid, slug);
  }

  method SaveAll(pictures: seq<Picture>, valid: seq<nat>, slug: string) returns (dir: Directory)
    requires forall k :: 0 <= k < |valid| ==> valid[k] < |pictures|
    ensures dir == SaveInOrder(pictures, valid, slug)
  {
    dir := map[];
    for k := 0 to |valid|
      invariant dir == SaveInOrder(pictures, valid[..k], slug)
    {
      assert valid[..k + 1][..k] == valid[..k];
      if pictures[valid[k]].savable {
        dir := dir[FileName(slug, PageNo(pictures[valid[k]].prov), valid[k] + 1) := valid[k]];
      }
    }
    assert valid[..|valid|] == valid;
  }

  /** The files are exactly those of the pictures with an image that can be written, each under
      the name made from the slug, the picture's page and its place in the document. */
  lemma FilesAreSavedPictures(pictures: seq<Picture>, slug: string, name: string, i: nat)
    ensures name in Saved(pictures, slug) && Saved(pictures, slug)[name] == i <==>
              i < |pictures| && pictures[i].hasImage && pictures[i].savable
              && name == FileName(slug, PageNo(pictures[i].prov), i + 1)
  {
    OrderShows(pictures, PicturesWithImage(pictures, |pictures|), slug);
    assert i in ImageSet(pictures) <==> i < |pictures| && pictures[i].hasImage;
  }

  // ---------------------------------------------------------------- finding a picture again

  /** The linear scan: the first picture with the reference, or -1. */
  function FirstIndex(pictures: seq<Picture>, ref: string): (idx: int)
    ensures -1 <= idx < |pictures|
    ensures idx >= 0 ==> pictures[idx].selfRef == ref
    ensures forall i :: 0 <= i < |pictures| && (idx < 0 || i < idx) ==> pictures[i].selfRef != ref
  {
    if pictures == [] then -1
    else if pictures[0].selfRef == ref then 0
    else
      var idx := FirstIndex(pictures[1..], ref);
      assert forall i :: 0 < i < |pictures| ==> pictures[i] == pictures[1..][i - 1];
      if idx < 0 then -1 else idx + 1
  }

  /** The last picture with the reference, or -1. */
  function LastIndex(pictures: seq<Picture>, ref: string): (idx: int)
    ensures -1 <= idx < |pictures|
    ensures idx >= 0 ==> pictures[idx].selfRef == ref
    ensures forall i :: idx < i < |pictures| ==> pictures[i].selfRef != ref
  {
    if pictures == [] then -1
    else if pictures[|pictures| - 1].selfRef == ref then |pictures| - 1
    else LastIndex(pictures[..|pictures| - 1], ref)
  }

  ghost predicate UniqueRef(pictures: seq<Picture>, ref: string) {
    forall i, j :: 0 <= i < j < |pictures| && pictures[i].selfRef == ref ==> pictures[j].selfRef != ref
  }

  /** The two searches agree exactly on references that occur at most once. */
  lemma {:induction false} SearchesAgreeIff(pictures: seq<Picture>, ref: string)
    ensures FirstIndex(pictures, ref) == LastIndex(pictures, ref) <==> UniqueRef(pictures, ref)
  {
    var a, b := FirstIndex(pictures, ref), LastIndex(pictures, ref);
    if a != b {
      assert a < b && pictures[a].selfRef == ref && pictures[b].selfRef == ref;
    }
  }

  /** The memo tables give every reference its last picture and that picture's page. */
  ghost predicate Fits(refToIdx: map<string, nat>, refToPage: map<string, nat>, pictures: seq<Picture>) {
    && (forall ref :: ref in refToIdx <==> LastIndex(pictures, ref) >= 0)
    && (forall ref :: ref in refToIdx ==> refToIdx[ref] == LastIndex(pictures, ref))
    && (forall ref :: ref in refToIdx ==> ref in refToPage && refToPage[ref] == PageNo(pictures[refToIdx[ref]].prov))
  }

  lemma LastIndexSnoc(pictures: seq<Picture>, pic: Picture, ref: string)
    ensures LastIndex(pictures + [pic], ref) == if ref == pic.selfRef then |pictures| else LastIndex(pictures, ref)
  {
    assert (pictures + [pic])[..|pictures|] == pictures;
  }

  lemma MemoStep(refToIdx: map<string, nat>, refToPage: map<string, nat>, pictures: seq<Picture>, pic: Picture)
    requires Fits(refToIdx, refToPage, pictures)
    ensures Fits(refToIdx[pic.selfRef := |pictures|], refToPage[pic.selfRef := PageNo(pic.prov)], pictures + [pic])
  {
    forall ref ensures LastIndex(pictures + [pic], ref) == if ref == pic.selfRef then |pictures| else LastIndex(pictures, ref) {
      LastIndexSnoc(pictures, pic, ref);
    }
  }

  /** The answer of a linear scan: the first picture with the reference, and its page. */
  ghost predicate IsFreshAnswer(pictures: seq<Picture>, ref: string, idx: int, page: nat) {
    idx == FirstIndex(pictures, ref) && (idx >= 0 ==> page == PageNo(pictures[idx].prov))
  }

  class Document {
    var pictures: seq<Picture>
    var slug: string

    constructor (pictures: seq<Picture>, slug: string)
      ensures this.pictures == pictures && this.slug == slug
    {
      this.pictures, this.slug := pictures, slug;
    }
  }

  /** `slug` is the serializer's own slug, empty if none was given. */
  function EffectiveSlug(slug: string, docSlug: string): string {
    if slug != "" then slug else docSlug
  }

  class PictureSerializer {
    const slug: string
    const imageDir: string
    const template: Option<(string, string) -> string>
    var cachedDoc: Document?
    var refToIdx: map<string, nat>
    var refToPage: map<string, nat>

    /** The memo tables fit the document they were built for, as it is now. */
    ghost predicate Valid()
      reads this, cachedDoc
    {
      cachedDoc != null ==> Fits(refToIdx, refToPage, cachedDoc.pictures)
    }

    constructor (slug: string, imageDir: string, template: Option<(string, string) -> string>)
      ensures Valid() && cachedDoc == null
      ensures this.slug == slug && this.imageDir == imageDir && this.template == template
    {
      this.slug, this.imageDir, this.template := slug, imageDir, template;
      cachedDoc := null;
      refToIdx, refToPage := map[], map[];
    }

    method BuildMemo(doc: Document)
      modifies this
      ensures cachedDoc == doc && Fits(refToIdx, refToPage, doc.pictures)
    {
      cachedDoc := doc;
      refToIdx, refToPage := map[], map[];
      for i := 0 to |doc.pictures|
        invariant cachedDoc == doc && Fits(refToIdx, refToPage, doc.pictures[..i])
      {
        var pic := doc.pictures[i];
        MemoStep(refToIdx, refToPage, doc.pictures[..i], pic);
        assert doc.pictures[..i] + [pic] == doc.pictures[..i + 1];
        refToIdx := refToIdx[pic.selfRef := i];
        refToPage := refToPage[pic.selfRef := PageNo(pic.prov)];
      }
      assert doc.pictures[..|doc.pictures|] == doc.pictures;
    }

    /** The position of the picture with the item's reference and its page number.  The memo
        keeps the last such picture. */
    method Locate(item: Picture, doc: Document) returns (idx: int, page: nat)
      requires Valid()
      modifies this
      ensures Valid() && cachedDoc == doc
      ensures idx == LastIndex(doc.pictures, item.selfRef)
      ensures idx >= 0 ==> page == PageNo(doc.pictures[idx].prov)
    {
      idx, page := -1, 1;
      if doc != cachedDoc {
        BuildMemo(doc);
        if doc.pictures == [] {
          return;
        }
      }
      if item.selfRef in refToIdx {
        idx, page := refToIdx[item.selfRef], refToPage[item.selfRef];
      } else {
        page := PageNo(item.prov);
      }
    }

    /** The image tag for an item, or None if the item is not one of the document's. */
    method ImageTag(item: Picture, doc: Document) returns (tag: Option<string>, imageName: string)
      requires Valid()
      modifies this
      ensures Valid() && cachedDoc == doc
      ensures tag.Some? <==> LastIndex(doc.pictures, item.selfRef) >= 0
      ensures tag.Some? ==>
                && imageName == LinkName(doc.pictures, item.selfRef, EffectiveSlug(slug, doc.slug))
                && tag.value == (if template.Some? then template.value(EffectiveSlug(slug, doc.slug), imageName)
                                 else "![image](" + imageDir + "/" + imageName + ")")
    {
      var idx, page := Locate(item, doc);
      tag, imageName := None, "";
      if idx != -1 {
        var docSlug := if slug != "" then slug else doc.slug;
        imageName := FileName(docSlug, page, idx + 1);
        match template
        case Some(format) => tag := Some(format(docSlug, imageName));
        case None => tag := Some("![image](" + imageDir + "/" + imageName + ")");
      }
    }

    /** Any sequence of look-ups over any mix of documents answers each as a fresh scan of
        its document would: the first picture with the reference and that picture's page. */
    method LocateAll(requests: seq<(Picture, Document)>) returns (found: seq<int>, pages: seq<nat>)
      requires Valid()
      requires forall k :: 0 <= k < |requests| ==> UniqueRef(requests[k].1.pictures, requests[k].0.selfRef)
      modifies this
      ensures Valid() && |found| == |pages| == |requests|
      ensures forall k :: 0 <= k < |requests| ==>
                IsFreshAnswer(requests[k].1.pictures, requests[k].0.selfRef, found[k], pages[k])
    {
      found, pages := [], [];
      for k := 0 to |requests|
        invariant Valid() && |found| == |pages| == k
        invariant forall j :: 0 <= j < k ==>
                    IsFreshAnswer(requests[j].1.pictures, requests[j].0.selfRef, found[j], pages[j])
      {
        SearchesAgreeIff(requests[k].1.pictures, requests[k].0.selfRef);
        var idx, page := Locate(requests[k].0, requests[k].1);
        assert IsFreshAnswer(requests[k].1.pictures, requests[k].0.selfRef, idx, page);
        found, pages := found + [idx], pages + [page];
      }
    }
  }

  function LinkName(pictures: seq<Picture>, ref: string, slug: string): string {
    var idx := LastIndex(pictures, ref);
    if idx >= 0 then NameOf(pictures, idx, slug) else ""
  }

  // ---------------------------------------------------------------- main result

  /** The link printed for a saved picture names the file that shows this very picture,
      however many pictures without images come before it, exactly when no later picture
      carries its reference. */
  lemma LinkNamesSavedFile(pictures: seq<Picture>, i: nat, slug: string)
    requires IsSaved(pictures, i)
    ensures var dir := Saved(pictures, slug);
            var link := LinkName(pictures, pictures[i].selfRef, slug);
            (link in dir && dir[link] == i) <==> forall j :: i < j < |pictures| ==> pictures[j].selfRef != pictures[i].selfRef
  {
    OrderShows(pictures, PicturesWithImage(pictures, |pictures|), slug);
    NameFindsPicture(Saved(pictures, slug), pictures, ImageSet(pictures), i, LastIndex(pictures, pictures[i].selfRef), slug);
  }

  /** The link of a serializer names the file that shows the picture exactly when, moreover, the
      pictures are saved under the serializer's own slug or, if it has none, under that of the
      document. */
  lemma SerializerLinksIff(pictures: seq<Picture>, i: nat, own: string, docSlug: string, saved: string)
    requires IsSaved(pictures, i)
    ensures var dir := Saved(pictures, saved);
            var link := LinkName(pictures, pictures[i].selfRef, EffectiveSlug(own, docSlug));
            (link in dir && dir[link] == i) <==>
              && (forall j :: i < j < |pictures| ==> pictures[j].selfRef != pictures[i].selfRef)
              && SafeSlug(saved) == if own != "" then own else SafeSlug(docSlug)
  {
    var last, slug := LastIndex(pictures, pictures[i].selfRef), EffectiveSlug(own, docSlug);
    OrderShows(pictures, PicturesWithImage(pictures, |pictures|), saved);
    FileNameInjective(slug, PageNo(pictures[last].prov), last + 1, saved, PageNo(pictures[i].prov), i + 1);
    ShownUnder(Saved(pictures, saved), pictures, i, NameOf(pictures, last, slug), saved);
  }

  lemma ShownUnder(dir: Directory, pictures: seq<Picture>, i: nat, name: string, slug: string)
    requires IsSaved(pictures, i) && ShowsSaved(dir, pictures, ImageSet(pictures), slug)
    ensures (name in dir && dir[name] == i) <==> name == NameOf(pictures, i, slug)
  {
  }

  lemma NameFindsPicture(dir: Directory, pictures: seq<Picture>, done: set<nat>, i: nat, j: nat, slug: string)
    requires ShowsSaved(dir, pictures, done, slug)
    requires i in done && IsSaved(pictures, i) && j < |pictures|
    ensures (NameOf(pictures, j, slug) in dir && dir[NameOf(pictures, j, slug)] == i) <==> i == j
  {
    DifferentPicturesDifferentNames(pictures, i, j, slug);
  }
}
