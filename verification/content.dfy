/** Turning a spine position into chapter bytes: the manifest item whose `id` is the spine
    entry's idref, its `href` resolved against the package document's directory, and the
    archive entry of that name. */
module Content {
  import opened Wrappers
  import opened Strings
  import opened ElementTree
  import opened Archive
  import opened Epub
  import opened Package

  predicate HasId(e: Element, idref: string)
  {
    "id" in e.attrs && e.attrs["id"] == idref
  }

  /** Position `i` holds the only element of `els` whose `id` is `idref`. */
  predicate UniqueIdAt(els: seq<Element>, idref: string, i: int)
  {
    && 0 <= i < |els|
    && HasId(els[i], idref)
    && forall j :: 0 <= j < |els| && j != i ==> !HasId(els[j], idref)
  }

  /** The positions, in document order, of the elements whose `id` is `idref`: the items
      `get_path` selects below the manifest, as positions in the descendant list. */
  function IdMatches(els: seq<Element>, idref: string): (r: seq<nat>)
    ensures forall k :: 0 <= k < |r| ==> r[k] < |els| && HasId(els[r[k]], idref)
    ensures forall k, l :: 0 <= k < l < |r| ==> r[k] < r[l]
    ensures forall i :: 0 <= i < |els| && HasId(els[i], idref) ==> i in r
    decreases |els|
  {
    if els == [] then []
    else
      var n := |els| - 1;
      var init := IdMatches(els[..n], idref);
      assert forall i :: 0 <= i < n ==> els[..n][i] == els[i];
      if HasId(els[n], idref) then init + [n] else init
  }

  /** Exactly one match is the same as a unique position: a missing item and a repeated one
      are both "not exactly one". */
  lemma ExactlyOneMatch(els: seq<Element>, idref: string)
    ensures |IdMatches(els, idref)| == 1 <==> exists i :: UniqueIdAt(els, idref, i)
    ensures |IdMatches(els, idref)| == 1 ==> UniqueIdAt(els, idref, IdMatches(els, idref)[0])
  {
    var r := IdMatches(els, idref);
    assert |r| >= 2 ==> r[0] < r[1];
    if |r| == 1 {
      assert UniqueIdAt(els, idref, r[0]);
    }
    if exists i :: UniqueIdAt(els, idref, i) {
      var i :| UniqueIdAt(els, idref, i);
      assert forall k :: 0 <= k < |r| ==> r[k] == i;
      assert i in r;
    }
  }

  /** `get_path`: the manifest item whose `id` is `idref` must be the only one; its `href` is
      then joined to the directory of the package document. */
  function GetPath(manifest: Option<Element>, indexPath: string, idref: string): (r: Result<string, Error>)
    ensures manifest.None? ==> r == Failure(NoManifest)
    ensures manifest.Some? && (forall i :: !UniqueIdAt(Descendants(manifest.value), idref, i)) ==>
      r.Failure? && r.error.ManifestItemNotUnique?
    ensures manifest.Some? ==> forall i :: UniqueIdAt(Descendants(manifest.value), idref, i) ==>
      var item := Descendants(manifest.value)[i];
      && (r.Success? <==> "href" in item.attrs)
      && (r.Success? ==> r.value == Dirname(indexPath) + "/" + item.attrs["href"])
  {
    match manifest {
      case None => Failure(NoManifest)
      case Some(m) =>
        var items := Descendants(m);
        var matches := IdMatches(items, idref);
        ExactlyOneMatch(items, idref);
        if |matches| != 1 then Failure(ManifestItemNotUnique(idref, |matches|))
        else
          var item := items[matches[0]];
          if "href" !in item.attrs then Failure(MissingAttribute("href"))
          else Success(Dirname(indexPath) + "/" + item.attrs["href"])
    }
  }

  /** No element of `els` carries the `id` `idref`. */
  predicate NoneWithId(els: seq<Element>, idref: string)
  {
    forall i :: 0 <= i < |els| ==> !HasId(els[i], idref)
  }

  /** Two different elements of `els` carry the `id` `idref`. */
  predicate TwoWithId(els: seq<Element>, idref: string)
  {
    exists i, j :: 0 <= i < j < |els| && HasId(els[i], idref) && HasId(els[j], idref)
  }

  /** Neither a missing manifest item nor a duplicated one yields a path. */
  lemma GetPathNeedsExactlyOne(manifest: Element, indexPath: string, idref: string)
    ensures NoneWithId(Descendants(manifest), idref) ==> GetPath(Some(manifest), indexPath, idref).Failure?
    ensures TwoWithId(Descendants(manifest), idref) ==> GetPath(Some(manifest), indexPath, idref).Failure?
  {
    var items := Descendants(manifest);
    if NoneWithId(items, idref) {
      assert forall k :: !UniqueIdAt(items, idref, k);
    }
    if TwoWithId(items, idref) {
      var i, j :| 0 <= i < j < |items| && HasId(items[i], idref) && HasId(items[j], idref);
      assert forall k :: !UniqueIdAt(items, idref, k);
    }
  }

  /** A resolved path ends with "/" and the item's `href`; below a package document at the top
      of the archive it is exactly "/" followed by the `href`. */
  lemma GetPathShape(manifest: Element, indexPath: string, idref: string, i: int)
    requires UniqueIdAt(Descendants(manifest), idref, i)
    requires "href" in Descendants(manifest)[i].attrs
    ensures var href := Descendants(manifest)[i].attrs["href"];
      var r := GetPath(Some(manifest), indexPath, idref);
      && r.Success?
      && |r.value| >= |href| + 1
      && r.value[|r.value| - |href| - 1..] == "/" + href
      && ('/' !in indexPath ==> r.value == "/" + href)
  {
    var href := Descendants(manifest)[i].attrs["href"];
    var r := GetPath(Some(manifest), indexPath, idref);
    var dir := Dirname(indexPath);
    assert r.value == dir + "/" + href;
    assert r.value[|dir|..] == "/" + href;
  }

  /** Python's `spine[index]` position: a negative index counts from the end. */
  function ListPosition(index: int, length: nat): (p: nat)
    requires 0 <= index + length && index < length
    ensures p < length
    ensures index >= 0 ==> p == index
    ensures index < 0 ==> p + (-index) == length
  {
    if index < 0 then length + index else index
  }

  /** `get_html` without the final text decoding: the bytes of the chapter at spine `index`. */
  function GetHtml(book: Book, index: int): (r: Result<seq<byte>, Error>)
    ensures !(-|book.spine| <= index < |book.spine|) ==> r == Failure(SpineIndexOutOfRange(index))
    ensures r.Success? <==>
      && -|book.spine| <= index < |book.spine|
      && var path := GetPath(book.manifest, book.indexPath, book.spine[ListPosition(index, |book.spine|)]);
      && path.Success?
      && path.value in book.files
    ensures r.Success? ==>
      var path := GetPath(book.manifest, book.indexPath, book.spine[ListPosition(index, |book.spine|)]);
      r.value == book.files[path.value]
  {
    if !(-|book.spine| <= index < |book.spine|) then Failure(SpineIndexOutOfRange(index))
    else
      var idref := book.spine[ListPosition(index, |book.spine|)];
      var path :- GetPath(book.manifest, book.indexPath, idref);
      if path !in book.files then Failure(MissingFile(path)) else Success(book.files[path])
  }

  /** Index `i - len(spine)` names the same chapter as `i`. */
  lemma NegativeIndexFromEnd(book: Book, i: int)
    requires 0 <= i < |book.spine|
    ensures GetHtml(book, i - |book.spine|) == GetHtml(book, i)
  {
    assert ListPosition(i - |book.spine|, |book.spine|) == ListPosition(i, |book.spine|);
  }

  /** With the package document at the top of the archive every resolved path starts with
      '/', while archive member names do not: no chapter of such a book can be read. */
  lemma TopLevelPackageReadsNoChapter(book: Book, index: int)
    requires '/' !in book.indexPath
    requires forall name :: name in book.files ==> name == [] || name[0] != '/'
    ensures GetHtml(book, index).Failure?
  {
    if -|book.spine| <= index < |book.spine| {
      var idref := book.spine[ListPosition(index, |book.spine|)];
      var path := GetPath(book.manifest, book.indexPath, idref);
      if path.Success? {
        var items := Descendants(book.manifest.value);
        var i :| UniqueIdAt(items, idref, i);
        GetPathShape(book.manifest.value, book.indexPath, idref, i);
        assert path.value[0] == '/';
      }
    }
  }
}
