/** Names shared by every stage of opening a book: the fixed locations and media type of
    the Open Container Format, the ways loading can stop, and Clark-notation namespaces. */
module Epub {
  import opened Strings
  import opened Wrappers
  import opened ElementTree

  /** Where the container descriptor lives inside every EPUB archive (OCF 3, section 3.5.2). */
  const ContainerPath: string := "META-INF/container.xml"

  /** The media type that marks a rootfile as the package document. */
  const PackageMediaType: string := "application/oebps-package+xml"

  /** Every way loading or reading a chapter stops. The script prints a message and exits,
      or lets a Python exception escape; both end the same way here. */
  datatype Error =
    | MissingFile(name: string)             // `files[name]` raises KeyError
    | MalformedXml(name: string)            // `ET.fromstring` rejects the bytes of `name`
    | MissingAttribute(attr: string)        // `el.attrib[attr]` raises KeyError
    | NoPackagePath                         // no usable rootfile (message, or NameError)
    | NoSpine                               // iterating over a missing spine element
    | NoManifest                            // calling `findall` on a missing manifest element
    | ManifestItemNotUnique(idref: string, count: nat)
    | SpineIndexOutOfRange(index: int)      // `spine[index]` raises IndexError

  /** The namespace part of a tag: `tag.split('}')[0].strip('{')`. */
  function Namespace(tag: string): (ns: string)
    ensures '}' !in ns
    ensures ns == [] || (ns[0] != '{' && ns[|ns| - 1] != '{')
  {
    var head := BeforeFirst(tag, '}');
    Strip(head, '{')
  }

  /** The tag an ElementPath step `{ns}local` selects. An empty namespace, `{}local`, selects
      elements that have no namespace at all. */
  function QueryTag(ns: string, local: string): string
  {
    if ns == [] then local else "{" + ns + "}" + local
  }

  /** The tag looked up for the child `local` of a root tagged `rootTag`: `local` in the
      namespace of the root. */
  function ChildTag(rootTag: string, local: string): string
  {
    QueryTag(Namespace(rootTag), local)
  }

  /** A qualified tag yields exactly its namespace. */
  lemma NamespaceOfQualified(ns: string, local: string)
    requires '}' !in ns
    requires ns == [] || (ns[0] != '{' && ns[|ns| - 1] != '{')
    ensures Namespace("{" + ns + "}" + local) == ns
  {
    var tag := "{" + ns + "}" + local;
    var head := BeforeFirst(tag, '}');
    assert tag[|ns| + 1] == '}';
    assert forall k :: 0 <= k <= |ns| ==> tag[k] != '}' by {
      forall k | 0 <= k <= |ns| ensures tag[k] != '}' {
        if k > 0 { assert tag[k] == ns[k - 1]; }
      }
    }
    assert head == "{" + ns;
    assert StripLeading(head, '{') == ns;
  }

  /** A tag without '}' is taken whole, less any '{' at its ends: an unqualified tag such as
      `package` is its own "namespace", never the empty string. */
  lemma NamespaceOfUnqualified(tag: string)
    requires '}' !in tag
    ensures Namespace(tag) == Strip(tag, '{')
    ensures '{' !in tag ==> Namespace(tag) == tag
  {
    assert BeforeFirst(tag, '}') == tag;
    if '{' !in tag && tag != [] {
      assert tag[0] in tag && tag[|tag| - 1] in tag;
      assert StripLeading(tag, '{') == tag;
      assert StripTrailing(tag, '{') == tag;
    }
  }

  /** An element looked up below an unqualified root is qualified by the root's whole tag. */
  lemma QueryBelowUnqualified(rootTag: string, local: string)
    requires '{' !in rootTag && '}' !in rootTag && rootTag != ""
    ensures ChildTag(rootTag, local) == "{" + rootTag + "}" + local
  {
    NamespaceOfUnqualified(rootTag);
  }

  /** Looking a child up by the root's namespace stays inside that namespace. */
  lemma QueryStaysInNamespace(rootTag: string, local: string)
    requires Namespace(rootTag) != []
    ensures Namespace(ChildTag(rootTag, local)) == Namespace(rootTag)
  {
    NamespaceOfQualified(Namespace(rootTag), local);
  }

  /** Below a root with a plain tag, a child is searched under the root's whole tag as namespace. */
  lemma NoChildBelowUnqualified(root: Element, local: string)
    requires '{' !in root.tag && '}' !in root.tag && root.tag != ""
    requires forall d :: d in Descendants(root) ==> d.tag != "{" + root.tag + "}" + local
    ensures FindDescendant(root, ChildTag(root.tag, local)).None?
  {
    QueryBelowUnqualified(root.tag, local);
  }
}
