/** Adding the pictures found in a workbook to the document, unless it has them. */
module ExcelPictures {
  import opened Text

  /** An extracted picture: `loadable` says that its file opens as an image, `hash` is that of
      the file, empty if unknown, `pngHash` that of its PNG encoding, if it can be encoded. */
  datatype Item = Item(loadable: bool, hash: string, pngHash: Option<string>, sheet: nat, row: int, col: int, width: int, height: int)

  datatype DocPicture = DocPicture(pngHash: Option<string>, page: nat, left: int, top: int, right: int, bottom: int)

  function Placed(item: Item): DocPicture {
    DocPicture(item.pngHash, item.sheet, item.col, item.row, item.col + item.width, item.row + item.height)
  }

  /** The box of a picture has its width and height; another column moves it sideways only,
      another row up or down only, and row and column zero are at the origin. */
  lemma PlacedAtItsCell(item: Item, d: nat)
    ensures var p := Placed(item);
            && p.right - p.left == item.width && p.bottom - p.top == item.height && p.page == item.sheet
            && Placed(item.(col := item.col + d)) == p.(left := p.left + d, right := p.right + d)
            && Placed(item.(row := item.row + d)) == p.(top := p.top + d, bottom := p.bottom + d)
            && (item.row == item.col == 0 ==> p.left == p.top == 0)
  {
  }

  function Hashes(pictures: seq<DocPicture>): set<string> {
    set p | p in pictures && p.pngHash.Some? :: p.pngHash.value
  }

  /** The first loadable occurrence of a hash that is not among the existing ones; items
      without a hash are always new. */
  predicate IsNew(items: seq<Item>, existing: set<string>, i: nat)
    requires i < |items|
  {
    && items[i].loadable
    && (items[i].hash != "" ==>
          items[i].hash !in existing && forall j :: 0 <= j < i && items[j].loadable ==> items[j].hash != items[i].hash)
  }

  /** The new ones among the first `n` items, in order. */
  function NewPictures(items: seq<Item>, existing: set<string>, n: nat): seq<DocPicture>
    requires n <= |items|
  {
    if n == 0 then []
    else NewPictures(items, existing, n - 1) + if IsNew(items, existing, n - 1) then [Placed(items[n - 1])] else []
  }

  /** Adding a new item encodes it, which may raise. */
  predicate Raises(items: seq<Item>, existing: set<string>, i: nat)
    requires i < |items|
  {
    IsNew(items, existing, i) && items[i].pngHash.None?
  }

  /** The first of the items from `i` on that raises, or the end. */
  function StopAt(items: seq<Item>, existing: set<string>, i: nat): (stop: nat)
    requires i <= |items|
    ensures i <= stop <= |items|
    ensures forall j :: i <= j < stop ==> !Raises(items, existing, j)
    ensures stop < |items| ==> Raises(items, existing, stop)
    decreases |items| - i
  {
    if i == |items| || Raises(items, existing, i) then i else StopAt(items, existing, i + 1)
  }

  /** The document's pictures after enriching. */
  function Enriched(pictures: seq<DocPicture>, items: seq<Item>): seq<DocPicture> {
    pictures + NewPictures(items, Hashes(pictures), StopAt(items, Hashes(pictures), 0))
  }

  class ExcelDocument {
    var pictures: seq<DocPicture>

    constructor (pictures: seq<DocPicture>)
      ensures this.pictures == pictures
    {
      this.pictures := pictures;
    }

    method HashExistingPictures() returns (hashes: set<string>)
      ensures hashes == Hashes(pictures)
    {
      hashes := {};
      for k := 0 to |pictures|
        invariant hashes == Hashes(pictures[..k])
      {
        assert pictures[..k + 1] == pictures[..k] + [pictures[k]];
        if pictures[k].pngHash.Some? {
          hashes := hashes + {pictures[k].pngHash.value};
        }
      }
      assert pictures[..|pictures|] == pictures;
    }

    /** Appends the pictures that are new, in order, up to the first that raises, and
        nothing else. */
    method EnrichPictures(items: seq<Item>)
      modifies this
      ensures pictures == Enriched(old(pictures), items)
    {
      if items == [] {
        return;
      }
      var hashes := HashExistingPictures();
      ghost var existing := hashes;
      for i := 0 to |items|
        invariant pictures == old(pictures) + NewPictures(items, existing, i)
        invariant StopAt(items, existing, 0) == StopAt(items, existing, i)
        invariant forall h :: h in hashes <==> h in existing || Seen(items, i, h)
      {
        var item := items[i];
        if !item.loadable {
          continue;
        }
        if item.hash != "" && item.hash in hashes {
          continue;
        }
        if item.pngHash.None? {
          return;
        }
        pictures := pictures + [Placed(item)];
        if item.hash != "" {
          hashes := hashes + {item.hash};
        }
      }
    }
  }

  ghost predicate Seen(items: seq<Item>, n: nat, hash: string)
    requires n <= |items|
  {
    hash != "" && exists j :: 0 <= j < n && items[j].loadable && items[j].hash == hash
  }

  /** `at` lists, from left to right, exactly the new ones among the first `n` items, and
      `pictures` shows them at their cells. */
  ghost predicate ListsNew(items: seq<Item>, existing: set<string>, n: nat, at: seq<nat>, pictures: seq<DocPicture>)
    requires n <= |items|
  {
    && |at| == |pictures|
    && (forall j, k :: 0 <= j < k < |at| ==> at[j] < at[k])
    && (forall i: nat :: i in at <==> i < n && IsNew(items, existing, i))
    && (forall j :: 0 <= j < |at| ==> at[j] < n && pictures[j] == Placed(items[at[j]]))
  }

  lemma {:induction false} NewAreListed(items: seq<Item>, existing: set<string>, n: nat) returns (at: seq<nat>)
    requires n <= |items|
    ensures ListsNew(items, existing, n, at, NewPictures(items, existing, n))
  {
    at := [];
    if n > 0 {
      at := NewAreListed(items, existing, n - 1);
      if IsNew(items, existing, n - 1) {
        NewSnoc(items, existing, n - 1, at, NewPictures(items, existing, n - 1));
        at := at + [n - 1];
      } else {
        assert forall i: nat :: i < n && IsNew(items, existing, i) ==> i < n - 1;
      }
    }
  }

  lemma NewSnoc(items: seq<Item>, existing: set<string>, n: nat, at: seq<nat>, pictures: seq<DocPicture>)
    requires n < |items| && IsNew(items, existing, n) && ListsNew(items, existing, n, at, pictures)
    ensures ListsNew(items, existing, n + 1, at + [n], pictures + [Placed(items[n])])
  {
    forall i: nat ensures i in at + [n] <==> i < n + 1 && IsNew(items, existing, i) {
      assert i in at + [n] <==> i in at || i == n;
    }
  }

  /** Enriching leaves the document's own pictures in front and adds, in the order of the items
      and at their cells, exactly the new ones before the first that cannot be encoded. */
  lemma EnrichedInOrder(pictures: seq<DocPicture>, items: seq<Item>) returns (at: seq<nat>)
    ensures pictures <= Enriched(pictures, items)
    ensures ListsNew(items, Hashes(pictures), StopAt(items, Hashes(pictures), 0), at, Enriched(pictures, items)[|pictures|..])
  {
    var stop := StopAt(items, Hashes(pictures), 0);
    at := NewAreListed(items, Hashes(pictures), stop);
    assert Enriched(pictures, items)[|pictures|..] == NewPictures(items, Hashes(pictures), stop);
  }

  /** Enriching adds nothing exactly when every loadable item has a hash that the document
      already has, which compares the hash of the file with that of a PNG encoding. */
  lemma {:induction false} NothingNewIff(items: seq<Item>, existing: set<string>, n: nat)
    requires n <= |items|
    ensures NewPictures(items, existing, n) == [] <==>
              forall i :: 0 <= i < n && items[i].loadable ==> items[i].hash != "" && items[i].hash in existing
  {
    if n > 0 {
      NothingNewIff(items, existing, n - 1);
    }
  }

  /** Some appended picture shows what one before it shows as well. */
  ghost predicate Repeats(pictures: seq<DocPicture>, items: seq<Item>) {
    var all := Enriched(pictures, items);
    exists j, k :: 0 <= j < k < |all| && |pictures| <= k && all[j].pngHash.Some? && all[j].pngHash == all[k].pngHash
  }

  /** The hash of the item's file is that of its PNG encoding: the file is that encoding. */
  predicate HashedAsPng(item: Item) {
    item.loadable && item.pngHash.Some? ==> item.hash != "" && item.pngHash == Some(item.hash)
  }

  lemma {:induction false} NewHashes(items: seq<Item>, existing: set<string>, n: nat)
    requires n <= |items| && forall i :: 0 <= i < |items| ==> HashedAsPng(items[i])
    requires n <= StopAt(items, existing, 0)
    ensures forall k :: 0 <= k < |NewPictures(items, existing, n)| ==>
              var h := NewPictures(items, existing, n)[k].pngHash;
              && h.Some? && h.value !in existing && Seen(items, n, h.value)
              && forall j :: 0 <= j < k ==> NewPictures(items, existing, n)[j].pngHash != h
  {
    if n > 0 {
      NewHashes(items, existing, n - 1);
      var before, item := NewPictures(items, existing, n - 1), items[n - 1];
      assert forall h :: Seen(items, n - 1, h) ==> Seen(items, n, h);
      if IsNew(items, existing, n - 1) {
        assert !Raises(items, existing, n - 1);
        assert HashedAsPng(item) && Seen(items, n, item.hash) && !Seen(items, n - 1, item.hash);
        assert NewPictures(items, existing, n) == before + [Placed(item)];
      }
    }
  }

  /** A picture that the document has, as a file of another format. */
  lemma OtherFormatRepeats(item: Item)
    requires !HashedAsPng(item)
    ensures Repeats([Placed(item)], [item])
  {
    var pictures, items := [Placed(item)], [item];
    var existing := Hashes(pictures);
    assert existing == {item.pngHash.value};
    assert IsNew(items, existing, 0);
    assert StopAt(items, existing, 0) == 1;
    assert NewPictures(items, existing, 0) == [];
    var all := Enriched(pictures, items);
    assert all == [Placed(item), Placed(item)];
    assert all[0].pngHash == all[1].pngHash == item.pngHash;
  }

  /** For any supply of files: enriching documents with them never repeats a picture, exactly
      when each that can be shown is hashed as its PNG encoding.  So any other format leads
      to repetitions. */
  lemma NeverRepeatsIff(supply: iset<Item>)
    ensures (forall pictures, items :: (forall x :: x in items ==> x in supply) ==> !Repeats(pictures, items))
            <==> forall x :: x in supply ==> HashedAsPng(x)
  {
    if x :| x in supply && !HashedAsPng(x) {
      OtherFormatRepeats(x);
      assert forall y :: y in [x] ==> y in supply;
    }
    if forall x :: x in supply ==> HashedAsPng(x) {
      forall pictures, items | (forall x :: x in items ==> x in supply) ensures !Repeats(pictures, items) {
        PngsDoNotRepeat(pictures, items);
      }
    }
  }

  lemma PngsDoNotRepeat(pictures: seq<DocPicture>, items: seq<Item>)
    requires forall x :: x in items ==> HashedAsPng(x)
    ensures !Repeats(pictures, items)
  {
    var existing := Hashes(pictures);
    NewHashes(items, existing, StopAt(items, existing, 0));
    var all, n := Enriched(pictures, items), |pictures|;
    forall j, k | 0 <= j < k < |all| && n <= k && all[j].pngHash.Some? ensures all[j].pngHash != all[k].pngHash {
      if j < n {
        assert all[j] in pictures;
        assert all[j].pngHash.value in existing;
      }
    }
  }
}
