/** Finding the package document through the container descriptor: the loop over every
    descendant that carries a `media-type` attribute, keeping the `full-path` of each one whose
    media type names the package document, so that the last such rootfile wins. */
module Container {
  import opened Wrappers
  import opened ElementTree
  import opened Epub

  predicate IsPackageRootfile(e: Element)
  {
    "media-type" in e.attrs && e.attrs["media-type"] == PackageMediaType
  }

  /** Position `i` holds the last package rootfile of `els`. */
  predicate LastRootfile(els: seq<Element>, i: int)
  {
    && 0 <= i < |els|
    && IsPackageRootfile(els[i])
    && forall j :: i < j < |els| ==> !IsPackageRootfile(els[j])
  }

  /** Some package rootfile lacks the `full-path` attribute the loop reads from it. */
  predicate RootfileWithoutPath(els: seq<Element>)
  {
    exists i :: 0 <= i < |els| && IsPackageRootfile(els[i]) && "full-path" !in els[i].attrs
  }

  /** A sequence with a package rootfile has a last one. */
  lemma {:induction false} LastRootfileExists(els: seq<Element>)
    ensures (exists i :: 0 <= i < |els| && IsPackageRootfile(els[i])) ==> exists k :: LastRootfile(els, k)
    decreases |els|
  {
    if els != [] {
      var n := |els| - 1;
      if IsPackageRootfile(els[n]) {
        assert LastRootfile(els, n);
      } else {
        var init := els[..n];
        assert forall j :: 0 <= j < n ==> init[j] == els[j];
        LastRootfileExists(init);
        if exists i :: 0 <= i < |els| && IsPackageRootfile(els[i]) {
          var i :| 0 <= i < |els| && IsPackageRootfile(els[i]);
          var k :| LastRootfile(init, k);
          assert LastRootfile(els, k);
        }
      }
    }
  }

  /** How the rootfile predicates of `els` relate to those of `els[1..]`: one loop step. */
  lemma ScanStep(els: seq<Element>)
    requires els != []
    ensures var rest := els[1..];
      && (RootfileWithoutPath(els) <==>
            RootfileWithoutPath(rest) || (IsPackageRootfile(els[0]) && "full-path" !in els[0].attrs))
      && (forall i :: LastRootfile(els, i) && i > 0 ==> LastRootfile(rest, i - 1))
      && (!IsPackageRootfile(els[0]) ==> forall i :: LastRootfile(els, i) ==> i > 0)
      && (LastRootfile(els, 0) ==> forall j :: 0 <= j < |rest| ==> !IsPackageRootfile(rest[j]))
      && ((forall j :: 0 <= j < |els| ==> !IsPackageRootfile(els[j])) ==>
            forall j :: 0 <= j < |rest| ==> !IsPackageRootfile(rest[j]))
  {
    var rest := els[1..];
    assert forall j :: 0 <= j < |rest| ==> rest[j] == els[j + 1];
    if RootfileWithoutPath(els) {
      var i :| 0 <= i < |els| && IsPackageRootfile(els[i]) && "full-path" !in els[i].attrs;
      if i > 0 {
        assert rest[i - 1] == els[i];
      }
    }
  }

  /** The loop itself: `found` is what `index_path` holds before `els` is visited. Reading
      `full-path` from a rootfile that lacks it stops the loop. */
  function ScanRootfiles(els: seq<Element>, found: Option<string>): (r: Result<Option<string>, Error>)
    ensures r.Failure? <==> RootfileWithoutPath(els)
    ensures r.Failure? ==> r.error == MissingAttribute("full-path")
    ensures r.Success? && (forall j :: 0 <= j < |els| ==> !IsPackageRootfile(els[j])) ==> r.value == found
    ensures r.Success? ==> forall i :: LastRootfile(els, i) ==> r.value == Some(els[i].attrs["full-path"])
    decreases |els|
  {
    if els == [] then Success(found)
    else
      ScanStep(els);
      if !IsPackageRootfile(els[0]) then ScanRootfiles(els[1..], found)
      else if "full-path" !in els[0].attrs then Failure(MissingAttribute("full-path"))
      else ScanRootfiles(els[1..], Some(els[0].attrs["full-path"]))
  }

  /** Elements that are not package rootfiles, whatever else they carry, never change what
      the loop finds. */
  lemma {:induction false} ScanIgnoresOtherElements(a: seq<Element>, x: Element, b: seq<Element>, found: Option<string>)
    requires !IsPackageRootfile(x)
    ensures ScanRootfiles(a + [x] + b, found) == ScanRootfiles(a + b, found)
    decreases |a|
  {
    if a == [] {
      assert (a + [x] + b)[1..] == a + b;
    } else {
      assert (a + [x] + b)[0] == a[0] && (a + b)[0] == a[0];
      assert (a + [x] + b)[1..] == a[1..] + [x] + b;
      assert (a + b)[1..] == a[1..] + b;
      var next := if IsPackageRootfile(a[0]) && "full-path" in a[0].attrs
                  then Some(a[0].attrs["full-path"]) else found;
      ScanIgnoresOtherElements(a[1..], x, b, next);
    }
  }

  /** The package path: the `full-path` of the last package rootfile among the container
      root's descendants. No such rootfile, or an empty path, is the load failure of
      read.py:42-44; a rootfile without `full-path` fails on the way. */
  function LocatePackage(container: Element): (r: Result<string, Error>)
    ensures var d := Descendants(container);
      r.Success? <==> !RootfileWithoutPath(d) && exists i :: LastRootfile(d, i) && d[i].attrs["full-path"] != ""
    ensures var d := Descendants(container);
      r.Success? ==> forall i :: LastRootfile(d, i) ==> r.value == d[i].attrs["full-path"]
    ensures r.Success? ==> r.value != ""
    ensures RootfileWithoutPath(Descendants(container)) ==> r == Failure(MissingAttribute("full-path"))
    ensures var d := Descendants(container);
      !RootfileWithoutPath(d) && (exists i :: LastRootfile(d, i) && d[i].attrs["full-path"] == "") ==> r == Failure(NoPackagePath)
    ensures var d := Descendants(container);
      (forall j :: 0 <= j < |d| ==> !IsPackageRootfile(d[j])) ==> r == Failure(NoPackagePath)
  {
    var d := Descendants(container);
    var found :- ScanRootfiles(d, None);
    LastRootfileExists(d);
    if found.None? || found.value == "" then Failure(NoPackagePath) else Success(found.value)
  }
}
