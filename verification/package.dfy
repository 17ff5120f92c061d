/** Loading a book: container descriptor, package document, then its manifest and spine
    elements, found in the namespace declared on the package root. */
module Package {
  import opened Wrappers
  import opened ElementTree
  import opened Archive
  import opened Epub
  import opened Container

  /** Everything later lookups use. `manifest` may be missing: nothing fails on that until a
      manifest item is looked up. */
  datatype Book = Book(
    files: map<string, seq<byte>>,
    indexPath: string,
    package: Element,
    manifest: Option<Element>,
    spine: seq<string>)

  /** The reading order: the `idref` of each child of the spine element, in declared order. */
  function SpineIdrefs(children: seq<Element>): (r: Result<seq<string>, Error>)
    ensures r.Success? <==> forall i :: 0 <= i < |children| ==> "idref" in children[i].attrs
    ensures r.Failure? ==> r.error == MissingAttribute("idref")
    ensures r.Success? ==> |r.value| == |children|
    ensures r.Success? ==> forall i :: 0 <= i < |children| ==> r.value[i] == children[i].attrs["idref"]
    decreases |children|
  {
    if children == [] then Success([])
    else if "idref" !in children[0].attrs then Failure(MissingAttribute("idref"))
    else
      var rest :- SpineIdrefs(children[1..]);
      assert forall i :: 1 <= i < |children| ==> children[1..][i - 1] == children[i];
      Success([children[0].attrs["idref"]] + rest)
  }

  /** `spine` lists the `idref` of every child of `spineEl`, one per child, in order. */
  predicate ReadingOrder(spineEl: Element, spine: seq<string>)
  {
    && |spine| == |spineEl.children|
    && forall i :: 0 <= i < |spine| ==> "idref" in spineEl.children[i].attrs && spine[i] == spineEl.children[i].attrs["idref"]
  }

  /** Reads one XML document out of `files`; `parse` stands for `ET.fromstring`, `None` for a
      document it rejects. */
  function ParseFile(files: map<string, seq<byte>>, name: string, parse: seq<byte> -> Option<Element>): (r: Result<Element, Error>)
    ensures name !in files ==> r == Failure(MissingFile(name))
    ensures name in files && parse(files[name]).None? ==> r == Failure(MalformedXml(name))
    ensures r.Success? <==> name in files && parse(files[name]).Some?
    ensures r.Success? ==> r.value == parse(files[name]).value
  {
    if name !in files then Failure(MissingFile(name))
    else match parse(files[name]) {
      case None => Failure(MalformedXml(name))
      case Some(e) => Success(e)
    }
  }

  /** The second half of opening a book, once the package path is known: read and parse the
      package document, then find its manifest and spine elements and read the spine. */
  function OpenPackage(files: map<string, seq<byte>>, indexPath: string, parse: seq<byte> -> Option<Element>): (r: Result<Book, Error>)
    ensures indexPath !in files ==> r == Failure(MissingFile(indexPath))
    ensures indexPath in files && parse(files[indexPath]).None? ==> r == Failure(MalformedXml(indexPath))
    ensures indexPath in files && parse(files[indexPath]).Some? ==>
      var package := parse(files[indexPath]).value;
      var spineEl := FindDescendant(package, ChildTag(package.tag, "spine"));
      && (spineEl.None? ==> r == Failure(NoSpine))
      && (spineEl.Some? ==>
            (r.Success? <==> forall i :: 0 <= i < |spineEl.value.children| ==> "idref" in spineEl.value.children[i].attrs))
    ensures r.Success? ==> r.value.files == files && r.value.indexPath == indexPath
    ensures r.Success? ==> indexPath in files && parse(files[indexPath]) == Some(r.value.package)
    ensures r.Success? ==> r.value.manifest == FindDescendant(r.value.package, ChildTag(r.value.package.tag, "manifest"))
    ensures r.Success? ==> FindDescendant(r.value.package, ChildTag(r.value.package.tag, "spine")).Some?
    ensures r.Success? ==>
      ReadingOrder(FindDescendant(r.value.package, ChildTag(r.value.package.tag, "spine")).value, r.value.spine)
  {
    var package :- ParseFile(files, indexPath, parse);
    var manifest := FindDescendant(package, ChildTag(package.tag, "manifest"));
    match FindDescendant(package, ChildTag(package.tag, "spine")) {
      case None => Failure(NoSpine)
      case Some(spineEl) =>
        var spine :- SpineIdrefs(spineEl.children);
        assert ReadingOrder(spineEl, spine);
        Success(Book(files, indexPath, package, manifest, spine))
    }
  }

  /** Opening a book from the in-memory archive `files`. */
  function Load(files: map<string, seq<byte>>, parse: seq<byte> -> Option<Element>): (r: Result<Book, Error>)
    ensures ContainerPath !in files ==> r == Failure(MissingFile(ContainerPath))
    ensures ContainerPath in files && parse(files[ContainerPath]).None? ==> r == Failure(MalformedXml(ContainerPath))
    ensures ContainerPath in files && parse(files[ContainerPath]).Some? ==>
      var located := LocatePackage(parse(files[ContainerPath]).value);
      && (located.Failure? ==> r == Failure(located.error))
      && (located.Success? ==> r == OpenPackage(files, located.value, parse))
    ensures r.Success? ==> r.value.files == files
    ensures r.Success? ==> ContainerPath in files && parse(files[ContainerPath]).Some?
    ensures r.Success? ==> LocatePackage(parse(files[ContainerPath]).value) == Success(r.value.indexPath)
    ensures r.Success? ==> r.value.indexPath != "" && r.value.indexPath in files
    ensures r.Success? ==> parse(files[r.value.indexPath]) == Some(r.value.package)
    ensures r.Success? ==> r.value.manifest == FindDescendant(r.value.package, ChildTag(r.value.package.tag, "manifest"))
    ensures r.Success? ==> FindDescendant(r.value.package, ChildTag(r.value.package.tag, "spine")).Some?
    ensures r.Success? ==>
      ReadingOrder(FindDescendant(r.value.package, ChildTag(r.value.package.tag, "spine")).value, r.value.spine)
  {
    var container :- ParseFile(files, ContainerPath, parse);
    var indexPath :- LocatePackage(container);
    OpenPackage(files, indexPath, parse)
  }

  /** A package root without a namespace, such as a bare `package` tag, is its own
      "namespace": the spine looked for is `{package}spine`, so with only plain `spine`
      elements below it opening the package stops with `NoSpine`. */
  lemma UnqualifiedPackageHasNoSpine(files: map<string, seq<byte>>, indexPath: string, parse: seq<byte> -> Option<Element>, package: Element)
    requires indexPath in files && parse(files[indexPath]) == Some(package)
    requires '{' !in package.tag && '}' !in package.tag && package.tag != ""
    requires forall d :: d in Descendants(package) ==> d.tag != "{" + package.tag + "}spine"
    ensures OpenPackage(files, indexPath, parse) == Failure(NoSpine)
  {
    NoChildBelowUnqualified(package, "spine");
  }
}
