# read.py EPUB package model

`read.py` opens an EPUB book and shows one chapter. This project models the part that
interprets the book's package structure:

- the Open Container Format container descriptor `META-INF/container.xml`, which names the
  package document through a rootfile whose `media-type` is `application/oebps-package+xml`
  (OCF 3, section 3.5.2);
- the package document's `manifest` and `spine` (EPUB 3 Packages), found in the namespace
  declared on the package root;
- the lookups that turn a spine position into the bytes of a chapter file.

The archive and XML libraries are replaced by what they return. An archive is a list of
entries (name, bytes); `Archive.FilesOf` builds the in-memory name-to-bytes map from it. An
XML document is an immutable `ElementTree.Element(tag, attrs, children)` tree with tags in
Clark notation (`{namespace}local`). XML parsing is a parameter
`parse: seq<byte> -> Option<Element>`, where `None` means the parser rejected the bytes.
The script either prints a message and exits, or lets a Python exception escape. Each of these
becomes a value of `Epub.Error` inside a `Result`.

Modules, leaf first:

- `Wrappers` holds `Option` and `Result`.
- `Strings` holds `split('}')[0]`, `strip('{')` and `dirname`.
- `ElementTree` holds the element tree, its descendants in document order, and `find`.
- `Archive` holds the name-to-bytes map.
- `Epub` holds the shared constants, the error taxonomy and `namespace`.
- `Container` locates the package document.
- `Package` loads a `Book`: the package path, the package root, the manifest element and the spine.
- `Content` holds `get_path` and `get_html`.

A spine idref with no manifest item is not rejected at load time. It only fails when that
chapter is requested (`Content.GetPath`).

Two ElementPath details are modelled as CPython 3.8 and later behave:

- `.//*` selects the descendants of an element in document order, and never the element itself.
- `.//{}tag` (an empty namespace) selects elements whose tag is plain `tag` (`Epub.QueryTag`).

## Model

| member | source | states |
|---|---|---|
| Strings.BeforeFirst | read.py:13 | `split('}')[0]`: the result is a prefix of the tag with no `}` in it, and it stops either at the end of the tag or right before its first `}` |
| Strings.StripLeading | read.py:13 | the result is a suffix of the input, everything removed in front of it is `{`, and it does not itself start with `{` |
| Strings.StripTrailing | read.py:13 | the result is a prefix of the input, everything removed after it is `{`, and it does not itself end with `{` |
| Strings.Strip | read.py:13 | `strip('{')`: the result neither starts nor ends with `{`, and it is empty exactly when the input consists only of `{` characters |
| Strings.StripIsCore | read.py:13 | what `strip` removes is exactly a run of the character at each end: the result sits at some offset with only that character before and after it |
| Strings.Dirname | read.py:60 | without a `/` the directory is empty; otherwise the directory followed by `/` is a prefix of the path, and no `/` follows that prefix |
| ElementTree.Descendants | read.py:38 | every child of `e` is among the elements selected below `e` |
| ElementTree.DescendantsMembers | read.py:38 | an element is below `e` exactly when it is a child of `e` or lies below one of its children |
| ElementTree.DescendantsInDocumentOrder | read.py:38 | document order: the subtrees of earlier children come first, then the child itself, its own descendants, and the subtrees of later children |
| ElementTree.DescendantsBelow | read.py:38 | every descendant is strictly smaller than `e`, so `e` is never among its own descendants |
| ElementTree.FindDescendant | read.py:48-49 | `find(".//" + tag)`: a hit has the requested tag and is the first descendant in document order with that tag; the result is missing exactly when no descendant has that tag |
| Archive.FilesOf | read.py:33-34 | the keys are exactly the entry names, and a name that occurs several times maps to the bytes of its last entry |
| Epub.Namespace | read.py:12-13 | the extracted namespace never contains `}` and never starts or ends with `{` |
| Epub.NamespaceOfQualified | read.py:12-13 | for `{ns}local` where `ns` has no `}` and does not start or end with `{`, the namespace is exactly `ns` |
| Epub.NamespaceOfUnqualified | read.py:13 | a tag without `}` is returned whole, less its leading and trailing `{`; a plain tag such as `package` is returned unchanged, not as the empty string |
| Epub.QueryBelowUnqualified | read.py:13 | below a root with a plain tag `t`, the searched tag is `{t}local`: the root's whole tag is used as the namespace |
| Epub.NoChildBelowUnqualified | read.py:48-49 | below a root with a plain tag `t`, `find` for `local` comes back empty whenever no element below carries the tag `{t}local`, even if plain `local` elements are there |
| Epub.QueryStaysInNamespace | read.py:48-49 | when the root has a namespace, the tag searched for manifest and spine carries that same namespace |
| Container.ScanRootfiles | read.py:38-40 | the loop fails exactly when some package rootfile lacks `full-path`; otherwise it yields the `full-path` of the last package rootfile, or keeps its earlier value when there is no package rootfile |
| Container.ScanIgnoresOtherElements | read.py:38-40 | inserting an element that is not a package rootfile anywhere among the descendants never changes what the loop finds |
| Container.LocatePackage | read.py:38-44 | the package path is the non-empty `full-path` of the last package rootfile below the container root; a rootfile without `full-path` fails with `MissingAttribute("full-path")`; otherwise no package rootfile, or an empty path, fails with `NoPackagePath` |
| Package.SpineIdrefs | read.py:50 | the spine has one entry per child of the spine element, in declared order, each that child's `idref`; a child without `idref` fails |
| Package.ParseFile | read.py:35 | a missing archive entry fails with `MissingFile`, unparsable bytes fail with `MalformedXml`, otherwise the result is the parsed tree of that entry |
| Package.OpenPackage | read.py:47-50 | a missing or unparsable package document fails with `MissingFile` or `MalformedXml`; with the root parsed, a missing spine element fails with `NoSpine`, and otherwise opening succeeds exactly when every child of the first spine element carries `idref`; an opened book keeps the archive map and the path, its manifest is the first manifest element in the root's namespace, and its spine lists the idrefs of the first spine element's children in order |
| Package.Load | read.py:32-50 | a missing or unparsable container fails with `MissingFile` or `MalformedXml`, the locator's error is the load's error, and once the package path is located the load is exactly `OpenPackage` on that path; a loaded book's path is the non-empty one the locator returns |
| Package.UnqualifiedPackageHasNoSpine | read.py:48-50 | a package root with a plain tag `t` is searched for `{t}spine`; when no element below has that tag (only plain `spine` elements, say) opening the package fails with `NoSpine` |
| Content.IdMatches | read.py:54 | the matches are the positions, in increasing order, of exactly the descendants whose `id` equals the idref |
| Content.ExactlyOneMatch | read.py:54-57 | there is exactly one match if and only if a single descendant carries that `id`, and that one is the match |
| Content.GetPath | read.py:53-60 | a missing manifest element fails; no unique item with the idref fails as "not exactly one"; for the unique item the path exists exactly when it has an `href`, and it is the package directory, `/`, and that `href` |
| Content.GetPathNeedsExactlyOne | read.py:55-57 | both a missing manifest item and a duplicated one are rejected |
| Content.GetPathShape | read.py:60 | a resolved path always ends with `/` and the `href`; when the package path has no `/` it is exactly `/` and the `href` |
| Content.ListPosition | read.py:64 | a Python list index in `[-len, len)` picks the position counted from the front for `i >= 0`, and from the end for `i < 0` |
| Content.GetHtml | read.py:63-64 | a chapter is returned only for a valid Python list index whose idref resolves to a path present in the archive, and it is exactly that entry's bytes; an index outside `[-len, len)` fails |
| Content.NegativeIndexFromEnd | read.py:64 | index `i - len(spine)` returns the same chapter, or the same failure, as index `i` |
| Content.TopLevelPackageReadsNoChapter | read.py:60-64 | when the package document sits at the top of the archive (its path has no `/`), every resolved chapter path starts with `/`; since archive member names do not, reading any spine position fails |

## Left out

- The Tk window, the HTML widget, its callbacks and the fixed `get_html(4)` call (read.py:66-75) are user interface.
- The DPI fix (read.py:9-10) and the creation of the application-data directory (read.py:15-19) are platform calls.
- Hashing the archive with MD5 and extracting it into a cache directory (read.py:21-30) is file-system I/O.
- ZIP decompression and XML text parsing (read.py:32-35, 47) are library calls. Their outputs are the entry list given to `Archive.FilesOf` and the `parse` parameter of `Package.Load`.
- Content.GetHtml: returns raw bytes; the UTF-8 `.decode()` at read.py:64 and its possible failure are not modelled.
- Content.IdMatches: the idref is pasted into an XPath predicate at read.py:54. The model compares `id == idref` directly, which is what the query means when the idref has no quote characters.
- Strings.Dirname: takes everything before the last `/`. `os.path.dirname` differs in two ways this does not model. It collapses repeated trailing separators. It also keeps a head made only of separators, so `dirname("/x")` is `/`, which makes read.py:60 build `//href` where the model builds `/href` for a package path such as `/content.opf`. Windows backslashes and drive letters are not modelled either.
- A namespace that is exactly `*` turns the query into an ElementPath wildcard (`{*}manifest`), and this is not modelled.
- A missing package path surfaces in read.py either as the printed message or as a `NameError`. Both are the single outcome `NoPackagePath`. The exit status and message text are not modelled.
